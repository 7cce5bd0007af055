/**
 * String operations of Rust's `str` that the manifest code relies on:
 * `split`, `join`, `lines`, `trim` (Unicode White_Space), `starts_with`
 * and `to_ascii_lowercase`. Strings are sequences of Unicode scalar values.
 */
module Text {

  /** Rust's `char::is_whitespace`: the characters with the Unicode White_Space property. */
  predicate IsWhitespace(c: char)
    ensures c == ' ' || c == '\t' || c == '\n' || c == '\r' ==> IsWhitespace(c)
    ensures '0' <= c <= '9' || 'A' <= c <= 'Z' || 'a' <= c <= 'z' || c == '#' || c == '/' || c == '.' ==> !IsWhitespace(c)
  {
    || ('\t' <= c <= '\r')
    || c == ' '
    || c == '\U{85}'
    || c == '\U{A0}'
    || c == '\U{1680}'
    || ('\U{2000}' <= c <= '\U{200A}')
    || c == '\U{2028}'
    || c == '\U{2029}'
    || c == '\U{202F}'
    || c == '\U{205F}'
    || c == '\U{3000}'
  }

  /** Neither end of `s` is whitespace. */
  predicate IsTrimmed(s: string) {
    s == [] || (!IsWhitespace(s[0]) && !IsWhitespace(s[|s| - 1]))
  }

  /**
   * `trim`: `s` with the whitespace at both ends removed, taken off one
   * character at a time (the same result as `trim_start` then `trim_end`).
   */
  function Trim(s: string): (r: string)
    ensures IsTrimmed(r) && |r| <= |s|
  {
    if s == [] then []
    else if IsWhitespace(s[0]) then Trim(s[1..])
    else if IsWhitespace(s[|s| - 1]) then Trim(s[..|s| - 1])
    else s
  }

  /**
   * The trimmed text is one contiguous piece of `s`, starting at `k`, and
   * everything cut off before and after it is whitespace.
   */
  lemma {:induction false} TrimSlice(s: string) returns (k: nat)
    ensures k + |Trim(s)| <= |s| && Trim(s) == s[k..k + |Trim(s)|]
    ensures forall i :: 0 <= i < k ==> IsWhitespace(s[i])
    ensures forall i :: k + |Trim(s)| <= i < |s| ==> IsWhitespace(s[i])
  {
    var n := |Trim(s)|;
    if s == [] {
      k := 0;
    } else if IsWhitespace(s[0]) {
      var j := TrimSlice(s[1..]);
      k := j + 1;
      assert s[1..][j..j + n] == s[k..k + n];
      forall i | 0 < i < k ensures IsWhitespace(s[i]) {
        assert s[i] == s[1..][i - 1];
      }
      forall i | k + n <= i < |s| ensures IsWhitespace(s[i]) {
        assert s[i] == s[1..][i - 1];
      }
    } else if IsWhitespace(s[|s| - 1]) {
      k := TrimSlice(s[..|s| - 1]);
      assert s[..|s| - 1][k..k + n] == s[k..k + n];
      forall i | k + n <= i < |s| - 1 ensures IsWhitespace(s[i]) {
        assert s[i] == s[..|s| - 1][i];
      }
    } else {
      k := 0;
      assert s[0..n] == s;
    }
  }

  /** Trimming a string that is already trimmed leaves it as it is. */
  lemma {:induction false} TrimOfTrimmed(s: string)
    requires IsTrimmed(s)
    ensures Trim(s) == s
  {
  }

  /** `s.starts_with(c)`. */
  predicate StartsWith(s: string, c: char) {
    s != [] && s[0] == c
  }

  /** `str::split(sep)`: the pieces between the separators, in order. */
  function Split(s: string, sep: char): (parts: seq<string>)
    ensures |parts| >= 1
    ensures forall i :: 0 <= i < |parts| ==> sep !in parts[i]
  {
    if s == [] then [[]]
    else
      var rest := Split(s[1..], sep);
      if s[0] == sep then [[]] + rest
      else [[s[0]] + rest[0]] + rest[1..]
  }

  /** The characters of `s` other than `c` (used to count separators). */
  function Without(s: string, c: char): (r: string)
    ensures |r| <= |s|
    ensures c !in r
  {
    if s == [] then []
    else if s[0] == c then Without(s[1..], c)
    else [s[0]] + Without(s[1..], c)
  }

  /** There is always one more piece than separators. */
  lemma {:induction false} SplitCount(s: string, sep: char)
    ensures |Split(s, sep)| == 1 + |s| - |Without(s, sep)|
  {
    if s != [] {
      SplitCount(s[1..], sep);
    }
  }

  /** `[..].join(sep)`: the pieces with one separator between neighbours. */
  function Join(parts: seq<string>, sep: char): (r: string)
    ensures parts == [] ==> r == []
    ensures |parts| >= 1 ==> |parts[0]| <= |r| && r[..|parts[0]|] == parts[0]
  {
    if |parts| == 0 then []
    else if |parts| == 1 then parts[0]
    else parts[0] + [sep] + Join(parts[1..], sep)
  }

  /** Splitting and joining again gives back the original text. */
  lemma {:induction false} JoinSplit(s: string, sep: char)
    ensures Join(Split(s, sep), sep) == s
  {
    if s != [] {
      JoinSplit(s[1..], sep);
      var rest := Split(s[1..], sep);
      if s[0] == sep {
        assert Split(s, sep) == [[]] + rest;
        assert ([[]] + rest)[1..] == rest;
      } else {
        var ps := Split(s, sep);
        assert ps == [[s[0]] + rest[0]] + rest[1..];
        if |rest| == 1 {
          assert ps == [[s[0]] + rest[0]];
        } else {
          assert ps[1..] == rest[1..];
          assert Join(rest, sep) == rest[0] + [sep] + Join(rest[1..], sep);
        }
      }
    }
  }

  /** Splitting a text with no separator in it gives that text alone. */
  lemma {:induction false} SplitNoSep(s: string, sep: char)
    requires sep !in s
    ensures Split(s, sep) == [s]
  {
    if s != [] {
      SplitNoSep(s[1..], sep);
      assert [s[0]] + s[1..] == s;
    }
  }

  /** A separator between two texts splits them apart. */
  lemma {:induction false} SplitAppend(a: string, b: string, sep: char)
    ensures Split(a + [sep] + b, sep) == Split(a, sep) + Split(b, sep)
  {
    if a == [] {
      assert [sep] + b == a + [sep] + b;
      assert ([sep] + b)[1..] == b;
    } else {
      var s := a + [sep] + b;
      assert s[0] == a[0] && s[1..] == a[1..] + [sep] + b;
      SplitAppend(a[1..], b, sep);
    }
  }

  /** Joining pieces that contain no separator and splitting again gives back the pieces. */
  lemma {:induction false} SplitJoin(parts: seq<string>, sep: char)
    requires |parts| >= 1
    requires forall i :: 0 <= i < |parts| ==> sep !in parts[i]
    ensures Split(Join(parts, sep), sep) == parts
  {
    if |parts| == 1 {
      SplitNoSep(parts[0], sep);
    } else {
      SplitJoin(parts[1..], sep);
      SplitNoSep(parts[0], sep);
      SplitAppend(parts[0], Join(parts[1..], sep), sep);
      assert [parts[0]] + parts[1..] == parts;
    }
  }

  /**
   * `str::lines()` for text split on '\n': a final empty piece (text that is
   * empty or ends with '\n') is not a line. Joining the lines with '\n'
   * gives the text back, less the one final '\n' when there is one.
   */
  function Lines(s: string): (ls: seq<string>)
    ensures forall i :: 0 <= i < |ls| ==> '\n' !in ls[i]
    ensures s == [] <==> ls == []
    ensures s != [] ==> s == Join(ls, '\n') + (if s[|s| - 1] == '\n' then "\n" else "")
  {
    var parts := Split(s, '\n');
    LinesShape(s);
    if parts[|parts| - 1] == [] then parts[..|parts| - 1] else parts
  }

  /** Joining one more piece adds a separator and that piece at the end. */
  lemma {:induction false} JoinSnoc(parts: seq<string>, x: string, sep: char)
    requires |parts| >= 1
    ensures Join(parts + [x], sep) == Join(parts, sep) + [sep] + x
  {
    if |parts| == 1 {
      assert (parts + [x])[1..] == [x];
    } else {
      JoinSnoc(parts[1..], x, sep);
      assert (parts + [x])[1..] == parts[1..] + [x];
    }
  }

  /** How the text is made of its '\n'-separated pieces, with or without a final empty one. */
  lemma LinesShape(s: string)
    ensures var parts := Split(s, '\n');
            var ls := if parts[|parts| - 1] == [] then parts[..|parts| - 1] else parts;
            && (s == [] <==> ls == [])
            && (s != [] ==> s == Join(ls, '\n') + (if s[|s| - 1] == '\n' then "\n" else ""))
  {
    var parts := Split(s, '\n');
    JoinSplit(s, '\n');
    var n := |parts|;
    if parts[n - 1] == [] {
      var init := parts[..n - 1];
      assert parts == init + [[]];
      if n == 1 {
        assert s == Join([[]], '\n') == [];
      } else {
        JoinSnoc(init, [], '\n');
        assert s == Join(init, '\n') + "\n";
      }
    } else if n == 1 {
      assert s == parts[0];
      assert s[|s| - 1] in parts[0];
    } else {
      var init := parts[..n - 1];
      assert parts == init + [parts[n - 1]];
      JoinSnoc(init, parts[n - 1], '\n');
      var last := parts[n - 1];
      assert s == Join(init, '\n') + ['\n'] + last;
      assert s[|s| - 1] == last[|last| - 1];
      assert last[|last| - 1] in last;
    }
  }

  /**
   * Writing names with `join("\n")` and reading the text back with `lines()`
   * gives the names back, as long as none holds a newline and the last is not empty.
   */
  lemma LinesOfJoin(names: seq<string>)
    requires |names| >= 1 && names[|names| - 1] != []
    requires forall i :: 0 <= i < |names| ==> '\n' !in names[i]
    ensures Lines(Join(names, '\n')) == names
  {
    var text := Join(names, '\n');
    SplitJoin(names, '\n');
    LinesOfSplit(text, names);
  }

  /** When the text splits into pieces the last of which is not empty, those pieces are its lines. */
  lemma LinesOfSplit(text: string, parts: seq<string>)
    requires Split(text, '\n') == parts && parts[|parts| - 1] != []
    ensures Lines(text) == parts
  {
  }

  /** `to_ascii_lowercase` of one character: only 'A'..'Z' change. */
  function AsciiLowerChar(c: char): (r: char)
    ensures 'A' <= c <= 'Z' ==> r as int == c as int + 32
    ensures !('A' <= c <= 'Z') ==> r == c
  {
    if 'A' <= c <= 'Z' then (c as int + 32) as char else c
  }

  /** `str::to_ascii_lowercase`. */
  function AsciiLower(s: string): (r: string)
    ensures |r| == |s|
    ensures forall i :: 0 <= i < |s| ==> r[i] == AsciiLowerChar(s[i])
  {
    if s == [] then [] else [AsciiLowerChar(s[0])] + AsciiLower(s[1..])
  }
}
