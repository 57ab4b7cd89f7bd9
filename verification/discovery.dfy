/** Discovery (`collect_images`): from a source that is a single file, a
    directory or neither, the sorted list of candidate image paths. The
    filesystem is replaced by the entries a directory walk would report. */
module Discovery {
  import Text
  import Paths
  import Ordering

  /** `COMMON_EXTS`: the recognised extensions, lower-case with their dot. */
  const CommonExts: set<string> := {".jpg", ".jpeg", ".png", ".webp", ".bmp", ".tif", ".tiff", ".gif"}

  /** A path is a candidate when the lower-cased suffix of its name is one of
      the recognised extensions. */
  predicate IsImagePath(p: string)
    ensures IsImagePath(p) ==> Paths.Suffix(Paths.Name(p)) != []
  {
    NoEmptyExtension();
    Text.Lower(Paths.Suffix(Paths.Name(p))) in CommonExts
  }

  /** For a file name `stem.ext` the test is on the last extension alone, in
      any letter case: `photo.2023.JPG` is a candidate, `a.png.txt` is not. */
  lemma BareNameIsImage(stem: string, ext: string)
    requires stem != [] && ext != []
    requires '/' !in stem && '/' !in ext && '.' !in ext
    ensures IsImagePath(stem + "." + ext) <==> Text.Lower("." + ext) in CommonExts
  {
    Paths.SimpleName(stem, ext);
  }

  /** A dot file such as `.png` has no suffix, so it is never a candidate,
      whatever follows the dot. */
  lemma DotFileNotImage(ext: string)
    requires '/' !in ext && '.' !in ext
    ensures !IsImagePath("." + ext)
  {
    Paths.DotFileName(ext);
    NoEmptyExtension();
  }

  lemma NoEmptyExtension()
    ensures Text.Lower([]) !in CommonExts
  {
    assert Text.Lower([]) == [];
  }

  /** One path below a source directory, as a recursive walk reports it:
      whether it is a regular file, and how deep it lies (1 for an immediate
      child of the directory). */
  datatype Entry = Entry(path: string, isFile: bool, depth: nat)

  /** What the source path turned out to be on disk. A directory carries
      every entry below it, in the order the walk yields them; `OtherSource`
      exists but is neither (a device or a pipe, say). */
  datatype Source =
    | FileSource(path: string)
    | DirSource(path: string, entries: seq<Entry>)
    | OtherSource(path: string)
    | Missing(path: string)

  /** An entry survives discovery when the walk reaches it (`rglob` reaches
      every depth, `glob` only the immediate children), it is a regular file,
      and its extension is recognised. */
  predicate Kept(e: Entry, recursive: bool)
  {
    (recursive || e.depth == 1) && e.isFile && IsImagePath(e.path)
  }

  /** The paths of the kept entries, in walk order (before sorting). */
  function Candidates(entries: seq<Entry>, recursive: bool): (r: seq<string>)
    ensures |r| <= |entries|
  {
    if entries == [] then []
    else
      var rest := Candidates(entries[1..], recursive);
      if Kept(entries[0], recursive) then [entries[0].path] + rest else rest
  }

  /** A path is a candidate exactly when some kept entry carries it. */
  lemma {:induction false} CandidatesMembers(entries: seq<Entry>, recursive: bool, p: string)
    ensures p in Candidates(entries, recursive) <==>
      exists k :: 0 <= k < |entries| && Kept(entries[k], recursive) && entries[k].path == p
  {
    if entries != [] {
      var rest := entries[1..];
      CandidatesMembers(rest, recursive, p);
      if p in Candidates(entries, recursive) {
        if !(Kept(entries[0], recursive) && entries[0].path == p) {
          var k :| 0 <= k < |rest| && Kept(rest[k], recursive) && rest[k].path == p;
          assert entries[k + 1] == rest[k];
        }
      }
      if exists k :: 0 <= k < |entries| && Kept(entries[k], recursive) && entries[k].path == p {
        var k :| 0 <= k < |entries| && Kept(entries[k], recursive) && entries[k].path == p;
        if k > 0 {
          assert rest[k - 1] == entries[k];
        }
      }
    }
  }

  /** The directory branch of `collect_images`: the kept entries' paths in
      sorted order. */
  function DirImages(entries: seq<Entry>, recursive: bool): (r: seq<string>)
    ensures Ordering.Sorted(r)
    ensures multiset(r) == multiset(Candidates(entries, recursive))
  {
    Ordering.Sort(Candidates(entries, recursive))
  }

  /** `collect_images(src, recursive)`. */
  function CollectImages(src: Source, recursive: bool): (r: seq<string>)
    ensures src.FileSource? ==> r == if IsImagePath(src.path) then [src.path] else []
    ensures src.OtherSource? || src.Missing? ==> r == []
    ensures src.DirSource? ==> r == DirImages(src.entries, recursive)
  {
    match src
    case FileSource(p) => if IsImagePath(p) then [p] else []
    case OtherSource(_) => []
    case Missing(_) => []
    case DirSource(_, entries) => DirImages(entries, recursive)
  }

  /** A path is discovered in a directory exactly when the walk reports a
      kept entry with that path. */
  lemma DiscoveredMembers(src: Source, recursive: bool, p: string)
    requires src.DirSource?
    ensures p in CollectImages(src, recursive) <==>
      exists k :: 0 <= k < |src.entries| && Kept(src.entries[k], recursive) && src.entries[k].path == p
  {
    var c := Candidates(src.entries, recursive);
    CandidatesMembers(src.entries, recursive, p);
    assert p in CollectImages(src, recursive) <==> p in multiset(c);
  }

  /** Every path discovered in a directory comes from a regular file the
      walk reached, and is a recognised image. */
  lemma DirDiscoveredAreImages(src: Source, recursive: bool, p: string)
    requires src.DirSource? && p in CollectImages(src, recursive)
    ensures IsImagePath(p)
    ensures exists k :: 0 <= k < |src.entries| && src.entries[k].isFile && src.entries[k].path == p
    ensures !recursive ==>
      exists k :: 0 <= k < |src.entries| && src.entries[k].depth == 1 && src.entries[k].path == p
  {
    DiscoveredMembers(src, recursive, p);
    var k :| 0 <= k < |src.entries| && Kept(src.entries[k], recursive) && src.entries[k].path == p;
    assert src.entries[k].isFile && IsImagePath(src.entries[k].path);
  }

  /** A single file is discovered only when it is itself a recognised image. */
  lemma FileDiscoveredIsImage(src: Source, recursive: bool, p: string)
    requires src.FileSource? && p in CollectImages(src, recursive)
    ensures p == src.path && IsImagePath(p)
  {
  }

  /** Whatever the source, every path discovered is a recognised image. */
  lemma DiscoveredAreImages(src: Source, recursive: bool, p: string)
    requires p in CollectImages(src, recursive)
    ensures IsImagePath(p)
  {
    if src.DirSource? {
      DirDiscoveredAreImages(src, recursive, p);
    } else if src.FileSource? {
      FileDiscoveredIsImage(src, recursive, p);
    }
  }

  /** The discovered list is fully determined: any sorted list holding the
      same kept paths is exactly what discovery returns. */
  lemma DiscoveryIsSortedCandidates(src: Source, recursive: bool, t: seq<string>)
    requires src.DirSource?
    requires Ordering.Sorted(t)
    requires multiset(t) == multiset(Candidates(src.entries, recursive))
    ensures CollectImages(src, recursive) == t
  {
    Ordering.SortedUnique(CollectImages(src, recursive), t);
  }

  /** No two entries of a walk share a path. */
  predicate DistinctPaths(entries: seq<Entry>)
  {
    forall i, j :: 0 <= i < j < |entries| ==> entries[i].path != entries[j].path
  }

  lemma DistinctTail(entries: seq<Entry>)
    requires entries != [] && DistinctPaths(entries)
    ensures DistinctPaths(entries[1..])
    ensures forall k :: 0 <= k < |entries[1..]| ==> entries[1..][k].path != entries[0].path
  {
    var rest := entries[1..];
    forall i, j | 0 <= i < j < |rest| ensures rest[i].path != rest[j].path {
      assert rest[i] == entries[i + 1] && rest[j] == entries[j + 1];
    }
    forall k | 0 <= k < |rest| ensures rest[k].path != entries[0].path {
      assert rest[k] == entries[k + 1];
    }
  }

  lemma {:induction false} CandidatesOnce(entries: seq<Entry>, recursive: bool, p: string)
    requires DistinctPaths(entries)
    ensures multiset(Candidates(entries, recursive))[p] <= 1
  {
    if entries != [] {
      var rest := entries[1..];
      DistinctTail(entries);
      CandidatesOnce(rest, recursive, p);
      CandidatesMembers(rest, recursive, p);
      CandidatesCons(entries, recursive);
      OnceStep(Candidates(entries, recursive), Kept(entries[0], recursive), entries[0].path,
               Candidates(rest, recursive), p);
    }
  }

  lemma CandidatesCons(entries: seq<Entry>, recursive: bool)
    requires entries != []
    ensures Candidates(entries, recursive)
         == (if Kept(entries[0], recursive) then [entries[0].path] else []) + Candidates(entries[1..], recursive)
  {
  }

  lemma OnceStep(c: seq<string>, kept: bool, x: string, cr: seq<string>, p: string)
    requires c == (if kept then [x] else []) + cr
    requires multiset(cr)[p] <= 1
    requires kept && x == p ==> p !in cr
    ensures multiset(c)[p] <= 1
  {
    assert multiset(c) == (if kept then multiset{x} else multiset{}) + multiset(cr);
  }

  /** When the walk reports each path once, every matching entry appears in
      the result exactly once. */
  lemma DiscoveredOnce(src: Source, recursive: bool, p: string)
    requires src.DirSource? && DistinctPaths(src.entries)
    requires p in CollectImages(src, recursive)
    ensures multiset(CollectImages(src, recursive))[p] == 1
  {
    CandidatesOnce(src.entries, recursive, p);
  }
}
