/**
 * The image manifest (`images.env`): reading it into the list of prize
 * paths and picking one (`random_image_path`), and writing a first manifest
 * from the data directory's image files (`ensure_images_env`).
 */
module Manifest {
  import opened Wrappers
  import Text
  import Paths
  import Sorting

  /** A trimmed manifest line names an image: it is not blank and not a `#` comment. */
  predicate Usable(line: string)
    ensures Usable(line) ==> line != [] && line[0] != '#'
    ensures Text.IsTrimmed(line) && Usable(line) ==> !Text.IsWhitespace(line[0])
  {
    line != [] && !Text.StartsWith(line, '#')
  }

  /** The usable manifest lines, trimmed, in file order. */
  function Entries(lines: seq<string>): (r: seq<string>)
    ensures |r| <= |lines|
    ensures forall i :: 0 <= i < |r| ==> Usable(r[i]) && Text.IsTrimmed(r[i])
  {
    if lines == [] then []
    else
      var t := Text.Trim(lines[0]);
      (if Usable(t) then [t] else []) + Entries(lines[1..])
  }

  /** Every entry comes from a line: the `j`-th entry is line `i`, trimmed, with `i` no earlier than `j`. */
  lemma {:induction false} EntryLine(lines: seq<string>, j: nat) returns (i: nat)
    requires j < |Entries(lines)|
    ensures j <= i < |lines| && Text.Trim(lines[i]) == Entries(lines)[j]
  {
    assert lines != [];
    var t := Text.Trim(lines[0]);
    var head := if Usable(t) then [t] else [];
    var rest := Entries(lines[1..]);
    assert Entries(lines) == head + rest;
    if head != [] && j == 0 {
      i := 0;
      assert (head + rest)[0] == t;
    } else {
      var k := EntryLine(lines[1..], j - |head|);
      i := k + 1;
      assert (head + rest)[j] == rest[j - |head|];
      assert lines[1..][k] == lines[i];
    }
  }

  /** Every usable line is read: its trimmed text is an entry. */
  lemma {:induction false} LineEntry(lines: seq<string>, i: nat)
    requires i < |lines| && Usable(Text.Trim(lines[i]))
    ensures Text.Trim(lines[i]) in Entries(lines)
  {
    if i > 0 {
      LineEntry(lines[1..], i - 1);
      assert lines[1..][i - 1] == lines[i];
    }
  }

  /** Reading two pieces of a manifest one after the other keeps their entries in order. */
  lemma {:induction false} EntriesAppend(a: seq<string>, b: seq<string>)
    ensures Entries(a + b) == Entries(a) + Entries(b)
  {
    if a != [] {
      assert (a + b)[0] == a[0] && (a + b)[1..] == a[1..] + b;
      EntriesAppend(a[1..], b);
    } else {
      assert a + b == b;
    }
  }

  /** A manifest line as a path: absolute lines as they are, the others under the data directory. */
  function Resolve(line: string, dataDir: string): (p: string)
    ensures Paths.IsAbsolute(line) ==> p == line
    ensures !Paths.IsAbsolute(line) ==> p == Paths.Join(dataDir, line)
  {
    if Paths.IsAbsolute(line) then line else Paths.Join(dataDir, line)
  }

  /** The prize paths a manifest lists; an unreadable manifest (`None`) lists none. */
  function Candidates(manifest: Option<string>, dataDir: string): (ps: seq<string>)
    ensures manifest.None? ==> ps == []
    ensures manifest.Some? ==> |ps| == |Entries(Text.Lines(manifest.value))|
    ensures manifest.Some? ==> forall i :: 0 <= i < |ps| ==>
              ps[i] == Resolve(Entries(Text.Lines(manifest.value))[i], dataDir)
  {
    match manifest
    case None => []
    case Some(text) =>
      var es := Entries(Text.Lines(text));
      seq(|es|, i requires 0 <= i < |es| => Resolve(es[i], dataDir))
  }

  /** What `gen_range(0..len)` promises: the index is within the list whenever the list is not empty. */
  predicate ValidIndex(manifest: Option<string>, dataDir: string, idx: nat) {
    Candidates(manifest, dataDir) != [] ==> idx < |Candidates(manifest, dataDir)|
  }

  /**
   * `random_image_path`, with the random index given: nothing when the
   * manifest is unreadable or lists no image, otherwise the listed path at `idx`.
   */
  function RandomImagePath(manifest: Option<string>, dataDir: string, idx: nat): (r: Option<string>)
    requires ValidIndex(manifest, dataDir, idx)
    ensures r.None? <==> Candidates(manifest, dataDir) == []
    ensures r.Some? ==> idx < |Candidates(manifest, dataDir)| && r.value == Candidates(manifest, dataDir)[idx]
  {
    var paths := Candidates(manifest, dataDir);
    if paths == [] then None else Some(paths[idx])
  }

  /** A picked path comes from a manifest line that, trimmed, is neither blank nor a comment. */
  lemma PickedFromLine(manifest: Option<string>, dataDir: string, idx: nat) returns (i: nat)
    requires ValidIndex(manifest, dataDir, idx)
    requires RandomImagePath(manifest, dataDir, idx).Some?
    ensures manifest.Some? && i < |Text.Lines(manifest.value)|
    ensures Usable(Text.Trim(Text.Lines(manifest.value)[i]))
    ensures RandomImagePath(manifest, dataDir, idx).value == Resolve(Text.Trim(Text.Lines(manifest.value)[i]), dataDir)
  {
    i := EntryLine(Text.Lines(manifest.value), idx);
  }

  /** Some line of the manifest holds something other than whitespace. */
  predicate AnyNonBlank(lines: seq<string>)
    ensures !AnyNonBlank(lines) ==> Entries(lines) == []
  {
    BlankListsNothing(lines);
    exists i :: 0 <= i < |lines| && Text.Trim(lines[i]) != []
  }

  /** A manifest whose every line is blank lists no entry. */
  lemma {:induction false} BlankListsNothing(lines: seq<string>)
    ensures (forall i :: 0 <= i < |lines| ==> Text.Trim(lines[i]) == []) ==> Entries(lines) == []
  {
    if lines != [] && forall i :: 0 <= i < |lines| ==> Text.Trim(lines[i]) == [] {
      assert Text.Trim(lines[0]) == [];
      forall i | 0 <= i < |lines[1..]| ensures Text.Trim(lines[1..][i]) == [] {
        assert lines[1..][i] == lines[i + 1];
      }
      BlankListsNothing(lines[1..]);
    }
  }

  /** The lower-cased extensions the bootstrap accepts. */
  predicate IsImageExtension(lower: string) {
    lower == "png" || lower == "jpg" || lower == "jpeg" || lower == "gif"
  }

  /** A directory entry the bootstrap lists: its extension, lower-cased, is png, jpg, jpeg or gif. */
  predicate IsImageName(name: string)
    ensures IsImageName(name) ==> |name| >= 5 && (name[|name| - 4] == '.' || name[|name| - 5] == '.')
  {
    match Paths.Extension(name)
    case Some(ext) => IsImageExtension(Text.AsciiLower(ext))
    case None => false
  }

  /** The image names among `names`, in their order, each as often as it occurs. */
  function ImageNames(names: seq<string>): (r: seq<string>)
    ensures |r| <= |names|
    ensures forall i :: 0 <= i < |r| ==> IsImageName(r[i])
  {
    if names == [] then []
    else (if IsImageName(names[0]) then [names[0]] else []) + ImageNames(names[1..])
  }

  /** Each image name is kept as often as the directory lists it; every other name is dropped. */
  lemma {:induction false} ImageNamesCount(names: seq<string>, x: string)
    ensures multiset(ImageNames(names))[x] == if IsImageName(x) then multiset(names)[x] else 0
  {
    if names != [] {
      assert names == [names[0]] + names[1..];
      ImageNamesCount(names[1..], x);
    }
  }

  /**
   * `ensure_images_env`: the text to write as the manifest, or `None` to
   * leave it alone. A manifest with any non-blank line is kept; otherwise the
   * image names of the directory, sorted, one per line, unless there are none.
   * An unreadable manifest counts as empty.
   */
  function Bootstrap(manifest: Option<string>, names: seq<string>): (r: Option<string>)
    ensures AnyNonBlank(Text.Lines(manifest.GetOr(""))) ==> r.None?
  {
    var text := manifest.GetOr("");
    if AnyNonBlank(Text.Lines(text)) then None
    else
      var kept := Sorting.Sort(ImageNames(names));
      if kept == [] then None else Some(Text.Join(kept, '\n'))
  }

  /** The bootstrap writes when and only when the manifest is blank and the directory lists an image name. */
  lemma BootstrapWhen(manifest: Option<string>, names: seq<string>)
    ensures Bootstrap(manifest, names).Some? <==>
              !AnyNonBlank(Text.Lines(manifest.GetOr(""))) && exists i :: 0 <= i < |names| && IsImageName(names[i])
  {
    KeptNonEmpty(names);
    var kept := Sorting.Sort(ImageNames(names));
    if !AnyNonBlank(Text.Lines(manifest.GetOr(""))) {
      assert Bootstrap(manifest, names).Some? == (kept != []);
    }
  }

  /** The bootstrap has something to write exactly when the directory lists an image name. */
  lemma KeptNonEmpty(names: seq<string>)
    ensures Sorting.Sort(ImageNames(names)) != [] <==> exists i :: 0 <= i < |names| && IsImageName(names[i])
  {
    var kept := Sorting.Sort(ImageNames(names));
    if exists i :: 0 <= i < |names| && IsImageName(names[i]) {
      var i :| 0 <= i < |names| && IsImageName(names[i]);
      ImageFound(names, i);
    }
    if kept != [] {
      assert kept[0] in kept;
      KeptIsListed(names, kept[0]);
      var i :| 0 <= i < |names| && names[i] == kept[0];
    }
  }

  /**
   * What the bootstrap writes: exactly the directory's image names, sorted
   * byte-wise, one per line.
   */
  lemma BootstrapWrites(manifest: Option<string>, names: seq<string>)
    requires forall i :: 0 <= i < |names| ==> '\n' !in names[i]
    requires Bootstrap(manifest, names).Some?
    ensures var written := Text.Lines(Bootstrap(manifest, names).value);
              && Sorting.Sorted(written)
              && (forall x :: multiset(written)[x] == if IsImageName(x) then multiset(names)[x] else 0)
              && forall j :: 0 <= j < |written| ==> IsImageName(written[j])
  {
    var kept := Sorting.Sort(ImageNames(names));
    forall j | 0 <= j < |kept| ensures IsImageName(kept[j]) && '\n' !in kept[j] {
      KeptIsListed(names, kept[j]);
      var i :| 0 <= i < |names| && names[i] == kept[j];
    }
    assert Paths.Extension(kept[|kept| - 1]).Some?;
    Text.LinesOfJoin(kept);
    forall x ensures multiset(kept)[x] == if IsImageName(x) then multiset(names)[x] else 0 {
      ImageNamesCount(names, x);
    }
  }

  /** A name the bootstrap keeps is an image name the directory lists. */
  lemma KeptIsListed(names: seq<string>, x: string)
    requires x in Sorting.Sort(ImageNames(names))
    ensures IsImageName(x) && x in names
  {
    assert x in multiset(Sorting.Sort(ImageNames(names)));
    ImageNamesCount(names, x);
    assert x in multiset(names);
  }

  /** A listed image name leaves the bootstrap something to write. */
  lemma ImageFound(names: seq<string>, i: nat)
    requires i < |names| && IsImageName(names[i])
    ensures Sorting.Sort(ImageNames(names)) != []
  {
    assert names[i] in multiset(names);
    ImageNamesCount(names, names[i]);
    assert names[i] in multiset(Sorting.Sort(ImageNames(names)));
  }

  /**
   * A blank manifest over a directory holding `a.png`, `B.JPG`, `note.txt`
   * and the hidden `.gif`: the manifest written is `B.JPG` then `a.png`
   * (upper case sorts first), without the text file or the extension-less
   * hidden file.
   */
  lemma BootstrapExample()
    ensures Bootstrap(None, ["a.png", "B.JPG", "note.txt", ".gif"]) == Some("B.JPG" + "\n" + "a.png")
  {
    ExampleFiltered();
    ExampleSorted();
    assert !AnyNonBlank(Text.Lines(None.GetOr(""))) by {
      assert Text.Lines("") == [];
    }
    assert Text.Join(["B.JPG", "a.png"], '\n') == "B.JPG" + "\n" + "a.png" by {
      assert ["B.JPG", "a.png"][1..] == ["a.png"];
    }
  }

  /** `a.png` and `B.JPG`, sorted: upper case comes first. */
  lemma ExampleSorted()
    ensures Sorting.Sort(["a.png", "B.JPG"]) == ["B.JPG", "a.png"]
  {
    assert ["a.png", "B.JPG"][1..] == ["B.JPG"];
    assert ["B.JPG"][1..] == [];
    assert Sorting.Sort(["B.JPG"]) == ["B.JPG"];
    assert !Sorting.Below("a.png", "B.JPG") by {
      assert "a.png"[0] == 'a' && "B.JPG"[0] == 'B';
    }
  }

  /** Filtering a list that starts with `x`. */
  lemma ImageNamesCons(x: string, rest: seq<string>)
    ensures ImageNames([x] + rest) == (if IsImageName(x) then [x] else []) + ImageNames(rest)
  {
    assert ([x] + rest)[1..] == rest;
  }

  /** A name `stem.ext` is an image name exactly when `ext`, lower-cased, is an accepted extension. */
  lemma ImageNameByExtension(stem: string, ext: string)
    requires stem != [] && '.' !in ext && stem + ['.'] + ext != ".."
    ensures IsImageName(stem + ['.'] + ext) == IsImageExtension(Text.AsciiLower(ext))
  {
    Paths.ExtensionOf(stem, ext);
  }

  /** The image names among `a.png`, `B.JPG`, `note.txt` and `.gif`, in directory order. */
  lemma ExampleFiltered()
    ensures ImageNames(["a.png", "B.JPG", "note.txt", ".gif"]) == ["a.png", "B.JPG"]
  {
    ExamplePng();
    ExampleJpg();
    ExampleText();
    ExampleHidden();
    ImageNamesCons(".gif", []);
    ImageNamesCons("note.txt", [".gif"]);
    ImageNamesCons("B.JPG", ["note.txt", ".gif"]);
    ImageNamesCons("a.png", ["B.JPG", "note.txt", ".gif"]);
  }

  lemma ExamplePng()
    ensures IsImageName("a.png")
  {
    assert "a.png" == "a" + ['.'] + "png";
    ImageNameByExtension("a", "png");
    assert Text.AsciiLower("png") == "png";
  }

  lemma ExampleJpg()
    ensures IsImageName("B.JPG")
  {
    assert "B.JPG" == "B" + ['.'] + "JPG";
    ImageNameByExtension("B", "JPG");
    assert Text.AsciiLower("JPG") == "jpg";
  }

  lemma ExampleText()
    ensures !IsImageName("note.txt")
  {
    assert "note.txt" == "note" + ['.'] + "txt";
    ImageNameByExtension("note", "txt");
    assert Text.AsciiLower("txt") == "txt";
  }

  /** A hidden file has no extension. */
  lemma ExampleHidden()
    ensures !IsImageName(".gif")
  {
    assert ".gif"[1..] == "gif";
  }
}
