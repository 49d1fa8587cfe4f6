/** The two helpers of pkg/syncer/helpers.go: sorting files by path in
    place, and copying a path-to-file map. */
module Helpers {
  import opened Strings
  import opened Sorting
  import opened Files

  /** The comparator `SortFilesInPlace` hands to `sort.SliceStable`. */
  predicate PathLess(a: File, b: File)
  {
    Less(a.path, b.path)
  }

  lemma PathLessStrictWeakOrder()
    ensures StrictWeakOrder(PathLess)
  {
    forall x: File
      ensures !PathLess(x, x)
    {
      LessIrreflexive(x.path);
    }
    forall x: File, y: File, z: File | PathLess(x, y) && PathLess(y, z)
      ensures PathLess(x, z)
    {
      LessTransitive(x.path, y.path, z.path);
    }
    forall x: File, y: File, z: File | !PathLess(x, y) && !PathLess(y, z)
      ensures !PathLess(x, z)
    {
      LessTotal(x.path, y.path);
      LessTotal(y.path, z.path);
      if Less(y.path, x.path) && Less(z.path, y.path) {
        LessTransitive(z.path, y.path, x.path);
      }
      LessTotal(x.path, z.path);
      if Less(x.path, z.path) && Less(z.path, x.path) {
        LessTransitive(x.path, z.path, x.path);
        LessIrreflexive(x.path);
      }
    }
  }

  /** Two files are equivalent under the comparator exactly when they have
      the same path. */
  lemma PathIncomparable(a: File, b: File)
    ensures Incomparable(PathLess, a, b) <==> a.path == b.path
  {
    LessTotal(a.path, b.path);
    if a.path == b.path {
      LessIrreflexive(a.path);
    }
  }

  /** `SortFilesInPlace`: a stable sort of the slice by path. */
  method SortFilesInPlace(files: array<File>)
    modifies files
    ensures files[..] == SortedBy(old(files[..]), PathLess)
  {
    StableSortInPlace(files, PathLess);
  }

  /** What the stable sort by path promises: the same files, paths in
      ascending order, and files of equal paths in their original order. */
  lemma SortedByPath(s: seq<File>)
    ensures multiset(SortedBy(s, PathLess)) == multiset(s)
    ensures var r := SortedBy(s, PathLess);
      forall i, j :: 0 <= i < j < |r| ==> r[i].path == r[j].path || Less(r[i].path, r[j].path)
    ensures forall e :: Equivalents(SortedBy(s, PathLess), e, PathLess) == Equivalents(s, e, PathLess)
  {
    SortedByPermutation(s, PathLess);
    PathLessStrictWeakOrder();
    SortedBySorted(s, PathLess);
    var r := SortedBy(s, PathLess);
    forall i, j | 0 <= i < j < |r|
      ensures r[i].path == r[j].path || Less(r[i].path, r[j].path)
    {
      assert !PathLess(r[j], r[i]);
      LessTotal(r[i].path, r[j].path);
    }
    StrictWeakOrderIncomparableTransitive(PathLess);
    forall e
      ensures Equivalents(r, e, PathLess) == Equivalents(s, e, PathLess)
    {
      SortedByStable(s, e, PathLess);
    }
  }

  /** The files of `s` whose path is `p`, in order. */
  function WithPath(s: seq<File>, p: string): (r: seq<File>)
    ensures forall f :: f in r ==> f in s && f.path == p
  {
    if s == [] then []
    else WithPath(s[..|s| - 1], p) + (if s[|s| - 1].path == p then [s[|s| - 1]] else [])
  }

  lemma {:induction false} EquivalentsWithPath(s: seq<File>, e: File)
    ensures Equivalents(s, e, PathLess) == WithPath(s, e.path)
  {
    if s != [] {
      EquivalentsWithPath(s[..|s| - 1], e);
      PathIncomparable(s[|s| - 1], e);
    }
  }

  /** Stability in the source's terms: files sharing a path keep their
      relative order. */
  lemma SortKeepsOrderOfEqualPaths(s: seq<File>, p: string)
    ensures WithPath(SortedBy(s, PathLess), p) == WithPath(s, p)
  {
    var e := File("", p, "", false, 0, 0, 0, false, false, []);
    SortedByPath(s);
    EquivalentsWithPath(s, e);
    EquivalentsWithPath(SortedBy(s, PathLess), e);
  }

  /** `CopyFileByPath`: a fresh map with every entry of `fileByPath`. The Go
      map holds pointers and the copy shares them; here files are values. */
  method CopyFileByPath(fileByPath: map<string, File>) returns (copied: map<string, File>)
    ensures copied == fileByPath
  {
    copied := map[];
    var remaining := fileByPath.Keys;
    while remaining != {}
      invariant remaining <= fileByPath.Keys
      invariant copied.Keys == fileByPath.Keys - remaining
      invariant forall p :: p in copied ==> copied[p] == fileByPath[p]
      decreases remaining
    {
      var p :| p in remaining;
      copied := copied[p := fileByPath[p]];
      remaining := remaining - {p};
    }
  }
}
