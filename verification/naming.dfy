/** Output naming in `convert_one`: the optional prefix, the `.avif` name
    derived from the source stem, and the counter probe that avoids
    clobbering an existing file. The destination directory is represented by
    the finite set of names already present in it. */
module Naming {
  import Text
  import opened Wrappers

  /** `prefix_var.get().strip() or None`: surrounding whitespace is removed
      and a prefix that is left empty becomes no prefix at all. */
  function NormalisePrefix(raw: string): (r: Option<string>)
    ensures r == None <==> Text.AllSpace(raw)
    ensures r.Some? ==> r.value == Text.Strip(raw) && r.value != []
    ensures r.Some? ==> !Text.IsSpace(r.value[0]) && !Text.IsSpace(r.value[|r.value| - 1])
  {
    Text.StripEmptyIff(raw);
    var s := Text.Strip(raw);
    if s == [] then None else Some(s)
  }

  /** The prefixed stem, `f"{prefix}_{stem}" if prefix else stem`; both the
      plain output name and the numbered alternatives are built from it. */
  function OutputStem(prefix: Option<string>, stem: string): (r: string)
    ensures !Truthy(prefix) ==> r == stem
    ensures Truthy(prefix) ==>
      && |r| == |prefix.value| + 1 + |stem| && r[|prefix.value|] == '_'
      && (forall k :: 0 <= k < |prefix.value| ==> r[k] == prefix.value[k])
    ensures |stem| <= |r| && forall k :: 0 <= k < |stem| ==> r[|r| - |stem| + k] == stem[k]
  {
    if Truthy(prefix) then prefix.value + "_" + stem else stem
  }

  /** The name tried first: `{stem}.avif`. */
  function PlainName(stem: string): string
  {
    stem + ".avif"
  }

  /** The `n`-th alternative: `{stem}_{n}.avif`. */
  function NumberedName(stem: string, n: nat): string
  {
    stem + "_" + Text.Decimal(n) + ".avif"
  }

  /** A prefix typed as whitespace only contributes nothing to the name,
      while any other prefix contributes its stripped text and one
      underscore. */
  lemma PrefixedStem(raw: string, stem: string)
    ensures Text.AllSpace(raw) ==> OutputStem(NormalisePrefix(raw), stem) == stem
    ensures !Text.AllSpace(raw) ==> OutputStem(NormalisePrefix(raw), stem) == Text.Strip(raw) + "_" + stem
  {
  }

  /** Different counters give different names, and no numbered name equals
      the plain one. */
  lemma NumberedNamesDistinct(stem: string, a: nat, b: nat)
    ensures NumberedName(stem, a) == NumberedName(stem, b) ==> a == b
    ensures NumberedName(stem, a) != PlainName(stem)
  {
    var x, y := NumberedName(stem, a), NumberedName(stem, b);
    assert |x| > |PlainName(stem)|;
    if x == y {
      var da, db := Text.Decimal(a), Text.Decimal(b);
      assert |da| == |db|;
      assert da == x[|stem| + 1..|stem| + 1 + |da|];
      assert db == y[|stem| + 1..|stem| + 1 + |db|];
      Text.DecimalInjective(a, b);
    }
  }

  /** The names `{stem}_2.avif` up to `{stem}_{n}.avif`. */
  function NamesUpTo(stem: string, n: nat): set<string>
  {
    if n < 2 then {} else NamesUpTo(stem, n - 1) + {NumberedName(stem, n)}
  }

  lemma {:induction false} NamesUpToContents(stem: string, n: nat, k: nat)
    ensures NumberedName(stem, k) in NamesUpTo(stem, n) <==> 2 <= k <= n
  {
    if n >= 2 {
      NamesUpToContents(stem, n - 1, k);
      NumberedNamesDistinct(stem, k, n);
    }
  }

  lemma {:induction false} NamesUpToSize(stem: string, n: nat)
    requires n >= 1
    ensures |NamesUpTo(stem, n)| == n - 1
  {
    if n >= 2 {
      NamesUpToSize(stem, n - 1);
      NamesUpToContents(stem, n - 1, n);
    }
  }

  /** Pigeonhole: if every alternative up to `n` is taken, the destination
      holds at least `n - 1` names, and one more when the plain name is taken
      too. */
  lemma ProbeBound(existing: set<string>, stem: string, n: nat)
    requires n >= 1
    requires forall k :: 2 <= k <= n ==> NumberedName(stem, k) in existing
    ensures n - 1 <= |existing|
    ensures PlainName(stem) in existing ==> n <= |existing|
  {
    var names := NamesUpTo(stem, n);
    NamesUpToSize(stem, n);
    forall x | x in names ensures x in existing {
      var k: nat :| 2 <= k <= n && x == NumberedName(stem, k) by {
        NamesUpToWitness(stem, n, x);
      }
    }
    SubsetSize(names, existing);
    if PlainName(stem) in existing {
      assert PlainName(stem) !in names by {
        if PlainName(stem) in names {
          NamesUpToWitness(stem, n, PlainName(stem));
        }
      }
      SubsetSize(names + {PlainName(stem)}, existing);
    }
  }

  lemma SubsetSize(a: set<string>, b: set<string>)
    requires a <= b
    ensures |a| <= |b|
  {
    assert b == a + (b - a);
    assert a * (b - a) == {};
  }

  lemma {:induction false} NamesUpToWitness(stem: string, n: nat, x: string)
    requires x in NamesUpTo(stem, n)
    ensures exists k: nat :: 2 <= k <= n && x == NumberedName(stem, k)
  {
    if x != NumberedName(stem, n) {
      NamesUpToWitness(stem, n - 1, x);
    }
  }

  /** The least counter `>= n` whose name is free, given that every counter
      from 2 below `n` is taken. */
  function LeastFreeFrom(existing: set<string>, stem: string, n: nat): (r: nat)
    requires n >= 2
    requires forall k :: 2 <= k < n ==> NumberedName(stem, k) in existing
    ensures r >= n && NumberedName(stem, r) !in existing
    ensures forall k :: 2 <= k < r ==> NumberedName(stem, k) in existing
    decreases |existing| + 2 - n
  {
    if NumberedName(stem, n) !in existing then n
    else
      ProbeBound(existing, stem, n);
      LeastFreeFrom(existing, stem, n + 1)
  }

  /** The counter the probe settles on: the least `n >= 2` whose numbered
      name is free. It never exceeds the number of names already present
      plus one when the plain name is taken. */
  function CollisionIndex(existing: set<string>, stem: string): (n: nat)
    ensures n >= 2 && NumberedName(stem, n) !in existing
    ensures forall k :: 2 <= k < n ==> NumberedName(stem, k) in existing
    ensures n <= |existing| + 2
    ensures PlainName(stem) in existing ==> n <= |existing| + 1
  {
    var n := LeastFreeFrom(existing, stem, 2);
    ProbeBound(existing, stem, n - 1);
    n
  }

  /** Any counter that is free and has every smaller one taken is the one the
      probe picks. */
  lemma CollisionIndexUnique(existing: set<string>, stem: string, m: nat)
    requires m >= 2 && NumberedName(stem, m) !in existing
    requires forall k :: 2 <= k < m ==> NumberedName(stem, k) in existing
    ensures m == CollisionIndex(existing, stem)
  {
  }

  /** The output name `convert_one` settles on for a prefixed stem. */
  function ResolveName(existing: set<string>, stem: string, overwrite: bool): (r: string)
    ensures overwrite || PlainName(stem) !in existing ==> r == PlainName(stem)
    ensures !overwrite ==> r !in existing
    ensures !overwrite && PlainName(stem) in existing ==> r == NumberedName(stem, CollisionIndex(existing, stem))
  {
    if PlainName(stem) in existing && !overwrite then NumberedName(stem, CollisionIndex(existing, stem))
    else PlainName(stem)
  }

  /** With only the plain name taken, the probe settles on `_2` (or keeps
      the plain name when overwriting). */
  lemma SecondName(stem: string, overwrite: bool)
    ensures ResolveName({PlainName(stem)}, stem, overwrite)
         == if overwrite then PlainName(stem) else NumberedName(stem, 2)
  {
    if !overwrite {
      NumberedNamesDistinct(stem, 2, 2);
      CollisionIndexUnique({PlainName(stem)}, stem, 2);
    }
  }

  /** The probe loop as the source writes it: try `_2`, `_3`, ... and stop at
      the first name not present. */
  method ProbeName(existing: set<string>, stem: string, overwrite: bool) returns (out: string)
    ensures out == ResolveName(existing, stem, overwrite)
  {
    out := PlainName(stem);
    if out in existing && !overwrite {
      var n: nat := 2;
      while true
        invariant 2 <= n <= |existing| + 1
        invariant forall k :: 2 <= k < n ==> NumberedName(stem, k) in existing
        decreases |existing| + 1 - n
      {
        var cand := NumberedName(stem, n);
        if cand !in existing {
          CollisionIndexUnique(existing, stem, n);
          out := cand;
          break;
        }
        ProbeBound(existing, stem, n);
        n := n + 1;
      }
    }
  }
}
