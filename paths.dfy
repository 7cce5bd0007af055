/**
 * The parts of Rust's `Path`/`PathBuf` the core uses, for Unix paths held
 * as strings: `is_absolute`, `join`, `file_name` and `extension`.
 */
module Paths {
  import opened Wrappers
  import Text

  /** `Path::is_absolute` on Unix: the path starts at the root. */
  predicate IsAbsolute(p: string)
    ensures IsAbsolute(p) ==> Text.Split(p, '/')[0] == []
  {
    assert p != [] && p[0] == '/' ==> Text.Split(p, '/') == [[]] + Text.Split(p[1..], '/');
    p != [] && p[0] == '/'
  }

  /** A single normal path component: not empty, no '/', and not `.` or `..`. */
  predicate IsPlainName(n: string) {
    n != [] && '/' !in n && n != "." && n != ".."
  }

  /**
   * `dir.join(p)`: an absolute `p` replaces `dir`; otherwise `p` is appended,
   * with a '/' in between unless `dir` is empty or already ends with one.
   */
  function Join(dir: string, p: string): (r: string)
    ensures IsAbsolute(p) ==> r == p
    ensures !IsAbsolute(p) ==> |r| >= |dir| + |p| && r[..|dir|] == dir && r[|r| - |p|..] == p
    ensures !IsAbsolute(p) ==> |r| <= |dir| + |p| + 1
    ensures !IsAbsolute(p) && (dir == [] || dir[|dir| - 1] == '/') ==> |r| == |dir| + |p|
    ensures !IsAbsolute(p) && dir != [] ==> r[|r| - |p| - 1] == '/'
  {
    if IsAbsolute(p) then p
    else if dir == [] || dir[|dir| - 1] == '/' then dir + p
    else dir + "/" + p
  }

  /**
   * The normal components among the '/'-separated pieces of a path: empty
   * pieces (from repeated or trailing slashes) and `.` pieces are skipped,
   * as `Path::components` skips them.
   */
  function NormalParts(parts: seq<string>): (r: seq<string>)
    ensures |r| <= |parts|
    ensures forall i :: 0 <= i < |r| ==> r[i] != [] && r[i] != "." && r[i] in parts
  {
    if parts == [] then []
    else
      var last := parts[|parts| - 1];
      var init := NormalParts(parts[..|parts| - 1]);
      if last == [] || last == "." then init else init + [last]
  }

  /**
   * `Path::file_name`: the last component of the path when it is a normal
   * one; no name for the root, for `.` and for a path ending in `..`.
   */
  function FileName(p: string): (r: Option<string>)
    ensures r.Some? ==> IsPlainName(r.value)
  {
    var parts := Text.Split(p, '/');
    var comps := NormalParts(parts);
    if comps == [] || comps[|comps| - 1] == ".." then None
    else
      var name := comps[|comps| - 1];
      assert '/' !in name by {
        var k :| 0 <= k < |parts| && parts[k] == name;
      }
      Some(name)
  }

  /** A normal last piece is the last component. */
  lemma NormalPartsSnoc(parts: seq<string>, name: string)
    requires IsPlainName(name)
    ensures NormalParts(parts + [name]) == NormalParts(parts) + [name]
  {
    assert (parts + [name])[..|parts|] == parts;
  }

  /** The '/'-separated pieces of `dir.join(name)` are those of the directory followed by the name. */
  lemma {:induction false} SplitJoined(dir: string, name: string) returns (front: seq<string>)
    requires IsPlainName(name)
    ensures Text.Split(Join(dir, name), '/') == front + [name]
  {
    Text.SplitNoSep(name, '/');
    if dir == [] {
      assert Join(dir, name) == name;
      front := [];
    } else if dir[|dir| - 1] == '/' {
      var d := dir[..|dir| - 1];
      assert dir == d + ['/'];
      assert Join(dir, name) == d + ['/'] + name;
      Text.SplitAppend(d, name, '/');
      front := Text.Split(d, '/');
    } else {
      assert Join(dir, name) == dir + ['/'] + name;
      Text.SplitAppend(dir, name, '/');
      front := Text.Split(dir, '/');
    }
  }

  /** Joining a plain name onto any directory gives a path whose file name is that name. */
  lemma {:induction false} FileNameOfJoin(dir: string, name: string)
    requires IsPlainName(name)
    ensures FileName(Join(dir, name)) == Some(name)
  {
    var front := SplitJoined(dir, name);
    NormalPartsSnoc(front, name);
  }

  /** Whatever comes before the last '/', a plain name after it is the file name. */
  lemma FileNameAfterSlash(front: string, name: string)
    requires IsPlainName(name)
    ensures FileName(front + ['/'] + name) == Some(name)
  {
    Text.SplitNoSep(name, '/');
    Text.SplitAppend(front, name, '/');
    NormalPartsSnoc(Text.Split(front, '/'), name);
  }

  /** A path that is a plain name alone is its own file name. */
  lemma FileNameOfName(name: string)
    requires IsPlainName(name)
    ensures FileName(name) == Some(name)
  {
    Text.SplitNoSep(name, '/');
    NormalPartsSnoc([], name);
  }

  /** The position of the last `c` in `s`, if any. */
  function LastIndexOf(s: string, c: char): (r: Option<nat>)
    ensures r.None? <==> c !in s
    ensures r.Some? ==> r.value < |s| && s[r.value] == c && c !in s[r.value + 1..]
  {
    if s == [] then None
    else if s[|s| - 1] == c then Some(|s| - 1)
    else
      var r := LastIndexOf(s[..|s| - 1], c);
      assert r.Some? ==> s[r.value + 1..] == s[..|s| - 1][r.value + 1..] + [s[|s| - 1]];
      r
  }

  /**
   * `Path::extension` of a file name: the text after the last '.', except
   * that a name without a dot, or whose only dot is its first character
   * (`.png`), has none.
   */
  function Extension(name: string): (r: Option<string>)
    ensures r.None? <==> (name == ".." || name == [] || '.' !in name[1..])
    ensures r.Some? ==> '.' !in r.value && |r.value| + 1 < |name|
    ensures r.Some? ==> name[|name| - |r.value|..] == r.value && name[|name| - |r.value| - 1] == '.'
  {
    if name == ".." then None
    else
      match LastIndexOf(name, '.')
      case None => None
      case Some(i) =>
        if i == 0 then
          assert name[1..] == name[i + 1..];
          None
        else
          assert name[i] in name[1..];
          Some(name[i + 1..])
  }

  /** A name made of a non-empty stem, a dot and a dot-free tail has that tail as its extension. */
  lemma ExtensionOf(stem: string, ext: string)
    requires stem != [] && '.' !in ext
    requires stem + ['.'] + ext != ".."
    ensures Extension(stem + ['.'] + ext) == Some(ext)
  {
    var name := stem + ['.'] + ext;
    assert name[|stem|] == '.' && name[|stem| + 1..] == ext;
  }
}
