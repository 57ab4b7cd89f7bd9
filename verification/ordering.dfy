/** The order `sorted()` puts discovered paths in. CPython compares two
    `PurePosixPath` values by the lists of their components, which is the
    same as comparing the path strings character by character with the
    separator `/` ranked below every other character. */
module Ordering {

  /** The rank of a character under the path order. */
  function Rank(c: char): int
  {
    if c == '/' then -1 else c as int
  }

  /** `a <= b` in the path order: lexicographic on ranks, a prefix first. */
  predicate PathLe(a: string, b: string)
    decreases |a|
  {
    || a == []
    || (b != [] && (Rank(a[0]) < Rank(b[0]) || (a[0] == b[0] && PathLe(a[1..], b[1..]))))
  }

  lemma {:induction false} PathLeReflexive(a: string)
    ensures PathLe(a, a)
    decreases |a|
  {
    if a != [] { PathLeReflexive(a[1..]); }
  }

  lemma {:induction false} PathLeTotal(a: string, b: string)
    ensures PathLe(a, b) || PathLe(b, a)
    decreases |a|
  {
    if a != [] && b != [] && a[0] == b[0] { PathLeTotal(a[1..], b[1..]); }
  }

  lemma {:induction false} PathLeAntisymmetric(a: string, b: string)
    requires PathLe(a, b) && PathLe(b, a)
    ensures a == b
    decreases |a|
  {
    if a != [] && b != [] {
      PathLeAntisymmetric(a[1..], b[1..]);
      assert a == [a[0]] + a[1..] && b == [b[0]] + b[1..];
    }
  }

  lemma {:induction false} PathLeTransitive(a: string, b: string, c: string)
    requires PathLe(a, b) && PathLe(b, c)
    ensures PathLe(a, c)
    decreases |a|
  {
    if a != [] && b != [] && c != [] && a[0] == b[0] && b[0] == c[0] {
      PathLeTransitive(a[1..], b[1..], c[1..]);
    }
  }

  predicate Sorted(s: seq<string>)
  {
    forall i, j :: 0 <= i < j < |s| ==> PathLe(s[i], s[j])
  }

  /** Places `x` in front of the first element it does not exceed. */
  function Insert(x: string, s: seq<string>): (r: seq<string>)
    requires Sorted(s)
    ensures Sorted(r)
    ensures multiset(r) == multiset(s) + multiset{x}
  {
    if s == [] || PathLe(x, s[0]) then
      BelowHead(x, s);
      Prepend(x, s);
      [x] + s
    else
      PathLeTotal(x, s[0]);
      SortedTail(s);
      var t := Insert(x, s[1..]);
      LowerBoundKept(s[0], s[1..], x, t);
      Prepend(s[0], t);
      assert s == [s[0]] + s[1..];
      [s[0]] + t
  }

  /** Whatever is below the head of a sorted sequence is below all of it. */
  lemma BelowHead(x: string, s: seq<string>)
    requires Sorted(s) && (s == [] || PathLe(x, s[0]))
    ensures forall j :: 0 <= j < |s| ==> PathLe(x, s[j])
  {
    forall j | 0 < j < |s| ensures PathLe(x, s[j]) { PathLeTransitive(x, s[0], s[j]); }
  }

  /** A lower bound of a sorted sequence can go in front of it. */
  lemma Prepend(x: string, s: seq<string>)
    requires Sorted(s) && forall j :: 0 <= j < |s| ==> PathLe(x, s[j])
    ensures Sorted([x] + s)
  {
    var r := [x] + s;
    forall i, j | 0 <= i < j < |r| ensures PathLe(r[i], r[j]) {
      assert r[j] == s[j - 1];
      if i > 0 { assert r[i] == s[i - 1]; }
    }
  }

  /** The tail of a sorted sequence is sorted and bounded below by its head. */
  lemma SortedTail(s: seq<string>)
    requires Sorted(s) && s != []
    ensures Sorted(s[1..])
    ensures forall j :: 0 <= j < |s[1..]| ==> PathLe(s[0], s[1..][j])
  {
    var t := s[1..];
    forall i, j | 0 <= i < j < |t| ensures PathLe(t[i], t[j]) {
      assert t[i] == s[i + 1] && t[j] == s[j + 1];
    }
    forall j | 0 <= j < |t| ensures PathLe(s[0], t[j]) {
      assert t[j] == s[j + 1];
    }
  }

  /** A lower bound of `s` and of `x` bounds every rearrangement of `s` with
      `x` added. */
  lemma LowerBoundKept(y: string, s: seq<string>, x: string, t: seq<string>)
    requires forall j :: 0 <= j < |s| ==> PathLe(y, s[j])
    requires PathLe(y, x)
    requires multiset(t) == multiset(s) + multiset{x}
    ensures forall j :: 0 <= j < |t| ==> PathLe(y, t[j])
  {
    forall j | 0 <= j < |t| ensures PathLe(y, t[j]) {
      assert t[j] in multiset(t);
      if t[j] != x {
        assert t[j] in multiset(s);
        var k :| 0 <= k < |s| && s[k] == t[j];
      }
    }
  }

  /** `sorted(xs)`: a permutation of `xs` in non-decreasing path order. */
  function Sort(xs: seq<string>): (r: seq<string>)
    ensures Sorted(r)
    ensures multiset(r) == multiset(xs)
  {
    if xs == [] then []
    else
      assert xs == [xs[0]] + xs[1..];
      Insert(xs[0], Sort(xs[1..]))
  }

  /** The head of a sorted sequence is below every element of it. */
  lemma HeadIsLeast(s: seq<string>, x: string)
    requires Sorted(s) && x in s
    ensures PathLe(s[0], x)
  {
    var i :| 0 <= i < |s| && s[i] == x;
    if i == 0 { PathLeReflexive(x); }
  }

  /** Removing equal heads leaves equal multisets. */
  lemma TailMultiset(s: seq<string>, t: seq<string>)
    requires s != [] && t != [] && s[0] == t[0]
    requires multiset(s) == multiset(t)
    ensures multiset(s[1..]) == multiset(t[1..])
  {
    assert s == [s[0]] + s[1..] && t == [t[0]] + t[1..];
    assert multiset(s) == multiset{s[0]} + multiset(s[1..]);
    assert multiset(t) == multiset{t[0]} + multiset(t[1..]);
    forall z ensures multiset(s[1..])[z] == multiset(t[1..])[z] {
      assert multiset(s)[z] == multiset{s[0]}[z] + multiset(s[1..])[z];
      assert multiset(t)[z] == multiset{t[0]}[z] + multiset(t[1..])[z];
    }
  }

  /** Any two sorted arrangements of the same paths are identical, so the
      outcome of `sorted()` is determined by which paths it is given. */
  lemma {:induction false} SortedUnique(s: seq<string>, t: seq<string>)
    requires Sorted(s) && Sorted(t)
    requires multiset(s) == multiset(t)
    ensures s == t
  {
    if s != [] {
      assert t != [] by { assert |multiset(t)| == |multiset(s)|; }
      assert s[0] in multiset(t) && t[0] in multiset(s);
      HeadIsLeast(t, s[0]);
      HeadIsLeast(s, t[0]);
      PathLeAntisymmetric(s[0], t[0]);
      TailMultiset(s, t);
      SortedTail(s);
      SortedTail(t);
      SortedUnique(s[1..], t[1..]);
      assert s == [s[0]] + s[1..] && t == [t[0]] + t[1..];
    }
  }
}
