/** The closed table of prize images and their worth in YC points (`image_value`). */
module Prize {
  import opened Wrappers
  import Paths

  /**
   * The points a drawn image is worth, decided by its file name alone:
   * YurCoin0/1/10/1000.png are worth 0/1/10/1000, every other name 0.
   */
  function ImageValue(path: string): (v: int)
    ensures v in {0, 1, 10, 1000}
    ensures v == 1 <==> Paths.FileName(path) == Some("YurCoin1.png")
    ensures v == 10 <==> Paths.FileName(path) == Some("YurCoin10.png")
    ensures v == 1000 <==> Paths.FileName(path) == Some("YurCoin1000.png")
  {
    match Paths.FileName(path)
    case Some("YurCoin0.png") => 0
    case Some("YurCoin1.png") => 1
    case Some("YurCoin10.png") => 10
    case Some("YurCoin1000.png") => 1000
    case _ => 0
  }

  /** The directory part never matters: a prize keeps its worth wherever the data directory is. */
  lemma ValueIgnoresDirectory(dir1: string, dir2: string, name: string)
    requires Paths.IsPlainName(name)
    ensures ImageValue(Paths.Join(dir1, name)) == ImageValue(Paths.Join(dir2, name))
  {
    Paths.FileNameOfJoin(dir1, name);
    Paths.FileNameOfJoin(dir2, name);
  }

  /** Whatever directory a prize sits under, absolute or nested, it is worth what its name alone is worth. */
  lemma ValueByName(front: string, name: string)
    requires Paths.IsPlainName(name)
    ensures ImageValue(front + ['/'] + name) == ImageValue(name)
  {
    Paths.FileNameAfterSlash(front, name);
    Paths.FileNameOfName(name);
  }

  /** An absolute, nested path to `YurCoin1000.png` is worth 1000. */
  lemma NestedThousand()
    ensures ImageValue("/srv/coins/YurCoin1000.png") == 1000
  {
    assert "/srv/coins/YurCoin1000.png" == "/srv/coins" + ['/'] + "YurCoin1000.png";
    Paths.FileNameAfterSlash("/srv/coins", "YurCoin1000.png");
  }
}
