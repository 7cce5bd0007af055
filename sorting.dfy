/**
 * Ordering and sorting of file names as Rust's `Vec<PathBuf>::sort` does it
 * for names in one directory: lexicographic over characters, a proper prefix
 * first. Comparing Unicode scalar values in order is the same as comparing
 * their UTF-8 bytes, so this is the byte-wise order of the names.
 */
module Sorting {

  /** `a` comes no later than `b` in byte-wise (lexicographic) order. */
  predicate Below(a: string, b: string)
    ensures a <= b ==> Below(a, b)
    ensures a != [] && b != [] && a[0] < b[0] ==> Below(a, b)
    ensures a != [] && b != [] && b[0] < a[0] ==> !Below(a, b)
    ensures b < a ==> !Below(a, b)
  {
    a == [] || (b != [] && (a[0] < b[0] || (a[0] == b[0] && Below(a[1..], b[1..]))))
  }

  lemma {:induction false} BelowReflexive(a: string)
    ensures Below(a, a)
  {
    if a != [] {
      BelowReflexive(a[1..]);
    }
  }

  lemma {:induction false} BelowTotal(a: string, b: string)
    ensures Below(a, b) || Below(b, a)
  {
    if a != [] && b != [] && a[0] == b[0] {
      BelowTotal(a[1..], b[1..]);
    }
  }

  lemma {:induction false} BelowTransitive(a: string, b: string, c: string)
    requires Below(a, b) && Below(b, c)
    ensures Below(a, c)
  {
    if a != [] && a[0] == b[0] && b[0] == c[0] {
      BelowTransitive(a[1..], b[1..], c[1..]);
    }
  }

  lemma {:induction false} BelowAntisymmetric(a: string, b: string)
    requires Below(a, b) && Below(b, a)
    ensures a == b
  {
    if a != [] {
      BelowAntisymmetric(a[1..], b[1..]);
      assert a == [a[0]] + a[1..] && b == [b[0]] + b[1..];
    }
  }

  predicate Sorted(s: seq<string>) {
    forall i, j :: 0 <= i < j < |s| ==> Below(s[i], s[j])
  }

  /** Inserts `x` into sorted `s` before the first element it is below. */
  function Insert(x: string, s: seq<string>): (r: seq<string>)
    requires Sorted(s)
    ensures Sorted(r)
    ensures multiset(r) == multiset(s) + multiset{x}
  {
    if s == [] then [x]
    else if Below(x, s[0]) then
      assert forall j :: 0 < j < |s| ==> Below(x, s[j]) by {
        forall j | 0 < j < |s| ensures Below(x, s[j]) { BelowTransitive(x, s[0], s[j]); }
      }
      SortedCons(x, s);
      [x] + s
    else
      BelowTotal(x, s[0]);
      var tail := Insert(x, s[1..]);
      assert s == [s[0]] + s[1..];
      HeadBelowInserted(x, s, tail);
      SortedCons(s[0], tail);
      [s[0]] + tail
  }

  /** A name below every name of a sorted sequence can go in front of it. */
  lemma SortedCons(h: string, t: seq<string>)
    requires Sorted(t) && forall j :: 0 <= j < |t| ==> Below(h, t[j])
    ensures Sorted([h] + t)
  {
    var r := [h] + t;
    forall i, j | 0 <= i < j < |r| ensures Below(r[i], r[j]) {
      assert r[j] == t[j - 1];
      if i > 0 { assert r[i] == t[i - 1]; }
    }
  }

  /** The first name of a sorted `s`, when `x` is not below it, is below every name of `x` inserted into the rest. */
  lemma HeadBelowInserted(x: string, s: seq<string>, tail: seq<string>)
    requires Sorted(s) && s != [] && Below(s[0], x)
    requires multiset(tail) == multiset(s[1..]) + multiset{x}
    ensures forall j :: 0 <= j < |tail| ==> Below(s[0], tail[j])
  {
    forall j | 0 <= j < |tail| ensures Below(s[0], tail[j]) {
      assert tail[j] in multiset(tail);
      if tail[j] != x {
        assert tail[j] in multiset(s[1..]);
        var k :| 0 <= k < |s[1..]| && s[1..][k] == tail[j];
        assert s[k + 1] == tail[j];
      }
    }
  }

  /** Insertion sort: a sorted permutation of `s`. */
  function Sort(s: seq<string>): (r: seq<string>)
    ensures Sorted(r)
    ensures multiset(r) == multiset(s)
  {
    if s == [] then []
    else
      assert s == [s[0]] + s[1..];
      Insert(s[0], Sort(s[1..]))
  }

  /**
   * Two sorted sequences holding the same names are equal, so any correct
   * sort (Rust's stable merge sort among them) produces exactly `Sort(s)`.
   */
  lemma {:induction false} SortedUnique(a: seq<string>, b: seq<string>)
    requires Sorted(a) && Sorted(b)
    requires multiset(a) == multiset(b)
    ensures a == b
  {
    if a != [] {
      SameFirst(a, b);
      SameRest(a, b);
      SortedUnique(a[1..], b[1..]);
      assert a == [a[0]] + a[1..] && b == [b[0]] + b[1..];
    }
  }

  /** Two sorted permutations start with the same name. */
  lemma SameFirst(a: seq<string>, b: seq<string>)
    requires Sorted(a) && Sorted(b) && multiset(a) == multiset(b) && a != []
    ensures b != [] && a[0] == b[0]
  {
    assert a[0] in multiset(b) && b != [];
    assert b[0] in multiset(a);
    var i :| 0 <= i < |b| && b[i] == a[0];
    var j :| 0 <= j < |a| && a[j] == b[0];
    BelowReflexive(a[0]);
    assert Below(b[0], a[0]) by { if i > 0 { assert Below(b[0], b[i]); } }
    assert Below(a[0], b[0]) by { if j > 0 { assert Below(a[0], a[j]); } }
    BelowAntisymmetric(a[0], b[0]);
  }

  /** Removing the same first name from two permutations leaves two permutations. */
  lemma SameRest(a: seq<string>, b: seq<string>)
    requires multiset(a) == multiset(b) && a != [] && b != [] && a[0] == b[0]
    ensures multiset(a[1..]) == multiset(b[1..])
  {
    assert a == [a[0]] + a[1..] && b == [b[0]] + b[1..];
    assert multiset(a) == multiset{a[0]} + multiset(a[1..]);
    assert multiset(b) == multiset{b[0]} + multiset(b[1..]);
    forall x ensures multiset(a[1..])[x] == multiset(b[1..])[x] {
      assert multiset(a)[x] == multiset{a[0]}[x] + multiset(a[1..])[x];
      assert multiset(b)[x] == multiset{b[0]}[x] + multiset(b[1..])[x];
    }
  }
}
