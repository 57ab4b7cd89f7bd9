/** The parts of a POSIX path string that the converter reads through
    `pathlib`: the final component (`name`), its extension (`suffix`) and the
    name without that extension (`stem`). Paths are taken in the normalised
    form `pathlib` prints them in (no trailing or doubled separators). */
module Paths {

  /** Index of the last occurrence of `c` in `s`, or -1 when there is none,
      like Python's `str.rfind`. */
  function RFind(s: string, c: char): (r: int)
    ensures -1 <= r < |s|
    ensures r == -1 ==> c !in s
    ensures r >= 0 ==> s[r] == c && c !in s[r + 1..]
  {
    if s == [] then -1
    else if s[|s| - 1] == c then |s| - 1
    else
      var r := RFind(s[..|s| - 1], c);
      assert s[r + 1..] == s[..|s| - 1][r + 1..] + [s[|s| - 1]];
      r
  }

  /** Where the final component starts: just after the last separator, or
      at the beginning when there is none. */
  function NameStart(p: string): (i: nat)
    ensures i <= |p| && '/' !in p[i..]
    ensures i > 0 ==> p[i - 1] == '/'
  {
    RFind(p, '/') + 1
  }

  /** `PurePath.name`: the text after the last separator. */
  function Name(p: string): (r: string)
    ensures '/' !in r
    ensures NameStart(p) + |r| == |p|
    ensures forall k :: 0 <= k < |r| ==> r[k] == p[NameStart(p) + k]
  {
    p[NameStart(p)..]
  }

  /** Position of the dot that starts a suffix, following the rule of
      `PurePath.suffix`: the last dot, provided it is neither the first nor
      the last character of the name. */
  function SuffixDot(name: string): (r: int)
  {
    var i := RFind(name, '.');
    if 0 < i < |name| - 1 then i else -1
  }

  /** `PurePath.suffix`: empty, or a dot followed by at least one character
      and no further dot. */
  function Suffix(name: string): (r: string)
    ensures r == [] || (|r| >= 2 && r[0] == '.' && '.' !in r[1..])
  {
    var i := SuffixDot(name);
    if i < 0 then [] else name[i..]
  }

  /** `PurePath.stem`: the name without its suffix. It is a prefix of the
      name, and where it stops short of the whole name a dot follows it. */
  function Stem(name: string): (r: string)
    ensures |r| <= |name| && forall k :: 0 <= k < |r| ==> r[k] == name[k]
    ensures |r| < |name| ==> r != [] && name[|r|] == '.'
  {
    var i := SuffixDot(name);
    if i < 0 then name else name[..i]
  }

  /** Stem and suffix partition the name, and a name with a suffix has a
      non-empty stem. */
  lemma StemSuffixSplit(name: string)
    ensures Stem(name) + Suffix(name) == name
    ensures Suffix(name) != [] ==> Stem(name) != []
  {
  }

  /** A file name `stem.ext`, with no separator and no dot in the
      extension, has the suffix `.ext` and the stem `stem`, whatever dots the
      stem holds: `photo.2023.jpg` has suffix `.jpg`, `.hidden.png` has
      suffix `.png`. */
  lemma SimpleName(stem: string, ext: string)
    requires stem != [] && ext != []
    requires '/' !in stem && '/' !in ext && '.' !in ext
    ensures Suffix(Name(stem + "." + ext)) == "." + ext
    ensures Stem(Name(stem + "." + ext)) == stem
  {
    NotInJoin(stem, ext, '/');
    BareName(stem + "." + ext);
    SplitAtLastDot(stem, ext);
  }

  lemma SplitAtLastDot(stem: string, ext: string)
    requires stem != [] && ext != [] && '.' !in ext
    ensures Suffix(stem + "." + ext) == "." + ext
    ensures Stem(stem + "." + ext) == stem
  {
    SuffixOfJoin(stem, ext);
    StemOfJoin(stem, ext);
  }

  lemma SuffixOfJoin(stem: string, ext: string)
    requires stem != [] && ext != [] && '.' !in ext
    ensures Suffix(stem + "." + ext) == "." + ext
  {
    var n := stem + "." + ext;
    assert SuffixDot(n) == |stem| by { LastDotOfJoin(stem, ext); }
    assert n[|stem|..] == "." + ext;
  }

  lemma StemOfJoin(stem: string, ext: string)
    requires stem != [] && ext != [] && '.' !in ext
    ensures Stem(stem + "." + ext) == stem
  {
    var n := stem + "." + ext;
    assert SuffixDot(n) == |stem| by { LastDotOfJoin(stem, ext); }
    assert n[..|stem|] == stem;
  }

  /** A path without a separator is its own name. */
  lemma BareName(n: string)
    requires '/' !in n
    ensures Name(n) == n
  {
    assert RFind(n, '/') == -1;
    assert n[0..] == n;
  }

  lemma NotInJoin(stem: string, ext: string, c: char)
    requires c != '.' && c !in stem && c !in ext
    ensures c !in stem + "." + ext
  {
    var n := stem + "." + ext;
    forall k | 0 <= k < |n| ensures n[k] != c {
      if k < |stem| { assert n[k] == stem[k]; }
      else if k > |stem| { assert n[k] == ext[k - |stem| - 1]; }
    }
  }

  lemma LastDotOfJoin(stem: string, ext: string)
    requires '.' !in ext
    ensures RFind(stem + "." + ext, '.') == |stem|
  {
    assert stem + "." + ext == stem + ['.'] + ext;
    RFindLast(stem, '.', ext);
  }

  /** The last occurrence of `c` in `a + [c] + b` is the one after `a` when
      `b` does not contain `c`. */
  lemma {:induction false} RFindLast(a: string, c: char, b: string)
    requires c !in b
    ensures RFind(a + [c] + b, c) == |a|
    decreases |b|
  {
    var s := a + [c] + b;
    if b != [] {
      var b' := b[..|b| - 1];
      assert s[|s| - 1] == b[|b| - 1];
      assert s[..|s| - 1] == a + [c] + b';
      RFindLast(a, c, b');
    }
  }

  /** A name made of a dot and an extension without dots is a hidden file
      with no suffix. */
  lemma DotFileName(ext: string)
    requires '/' !in ext && '.' !in ext
    ensures Suffix(Name("." + ext)) == []
  {
    var n := "." + ext;
    assert n == [] + "." + ext;
    NotInJoin([], ext, '/');
    BareName(n);
    LastDotOfJoin([], ext);
  }
}
