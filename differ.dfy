/** The `Differ` of pkg/syncer/differ.go: the latest snapshot handed to it
    and the one before, and what changed between the two. */
module Differs {
  import opened Files
  import opened Helpers

  /** The paths that appear in `current` only, with their current files. */
  function Added(current: map<string, File>, previous: map<string, File>): map<string, File>
  {
    map p | p in current && p !in previous :: current[p]
  }

  /** The paths that appear in `previous` only, with their previous files. */
  function Removed(current: map<string, File>, previous: map<string, File>): map<string, File>
  {
    map p | p in previous && p !in current :: previous[p]
  }

  /** Two descriptions of a path that the differ tells apart: the
      modification time or the size differs. */
  predicate Changed(now: File, before: File)
  {
    now.modified != before.modified || now.size != before.size
  }

  /** The paths in both snapshots whose files changed, with their current
      files. */
  function ModifiedPaths(current: map<string, File>, previous: map<string, File>): map<string, File>
  {
    map p | p in current && p in previous && Changed(current[p], previous[p]) :: current[p]
  }

  class Differ {
    /** `fileByPath`: the latest snapshot. */
    var current: map<string, File>
    /** `lastFileByPath`: the snapshot before it. */
    var previous: map<string, File>

    /** `GetDiffer`: both snapshots empty. */
    constructor ()
      ensures current == map[] && previous == map[]
    {
      current, previous := map[], map[];
    }

    /** `update`: a snapshot equal to the latest is ignored; any other
        becomes the latest and the latest becomes the previous one. */
    method Update(fileByPath: map<string, File>)
      modifies this
      ensures old(current) == fileByPath ==> current == old(current) && previous == old(previous)
      ensures old(current) != fileByPath ==> previous == old(current) && current == fileByPath
    {
      if fileByPath == current {
        return;
      }
      previous := CopyFileByPath(current);
      current := CopyFileByPath(fileByPath);
    }

    /** `diff`: the added, removed and modified paths from the previous
        snapshot to the latest. */
    method Diff() returns (added: map<string, File>, removed: map<string, File>, modified: map<string, File>)
      ensures added == Added(current, previous)
      ensures removed == Removed(current, previous)
      ensures modified == ModifiedPaths(current, previous)
    {
      added, modified := CurrentPaths();
      removed := PreviousPaths();
    }

    /** The first loop of `diff`, over the latest snapshot. */
    method CurrentPaths() returns (added: map<string, File>, modified: map<string, File>)
      ensures added == Added(current, previous)
      ensures modified == ModifiedPaths(current, previous)
    {
      added, modified := map[], map[];
      var remaining := current.Keys;
      while remaining != {}
        invariant remaining <= current.Keys
        invariant added == map p | p in current.Keys - remaining && p !in previous :: current[p]
        invariant modified == map p | p in current.Keys - remaining && p in previous && Changed(current[p], previous[p]) :: current[p]
        decreases remaining
      {
        var path :| path in remaining;
        remaining := remaining - {path};
        var file := current[path];
        if path in previous {
          var lastFile := previous[path];
          if file.modified == lastFile.modified && file.size == lastFile.size {
            continue;
          }
          modified := modified[path := file];
          continue;
        }
        added := added[path := file];
      }
    }

    /** The second loop of `diff`, over the previous snapshot. */
    method PreviousPaths() returns (removed: map<string, File>)
      ensures removed == Removed(current, previous)
    {
      removed := map[];
      var remaining := previous.Keys;
      while remaining != {}
        invariant remaining <= previous.Keys
        invariant removed == map p | p in previous.Keys - remaining && p !in current :: previous[p]
        decreases remaining
      {
        var lastPath :| lastPath in remaining;
        remaining := remaining - {lastPath};
        if lastPath in current {
          continue;
        }
        removed := removed[lastPath := previous[lastPath]];
      }
    }
  }

  /** The three reports are pairwise disjoint, and every path of either
      snapshot is in exactly one of them unless it is in both with an
      unchanged description. */
  lemma DiffPartitions(current: map<string, File>, previous: map<string, File>)
    ensures Added(current, previous).Keys !! Removed(current, previous).Keys
    ensures Added(current, previous).Keys !! ModifiedPaths(current, previous).Keys
    ensures Removed(current, previous).Keys !! ModifiedPaths(current, previous).Keys
    ensures forall p :: p in current || p in previous ==>
      (p in Added(current, previous) || p in Removed(current, previous) || p in ModifiedPaths(current, previous)
       <==> !(p in current && p in previous && !Changed(current[p], previous[p])))
  {
  }

  /** Comparing a snapshot with itself reports nothing; in particular a
      fresh differ reports nothing. */
  lemma DiffOfSame(m: map<string, File>)
    ensures Added(m, m) == map[] && Removed(m, m) == map[] && ModifiedPaths(m, m) == map[]
  {
    assert Added(m, m).Keys == {};
    assert Removed(m, m).Keys == {};
    assert ModifiedPaths(m, m).Keys == {};
  }

  /** Only the modification time and the size count: a snapshot that
      differs from the previous one in names, modes, digests or any other
      field only reports nothing. */
  lemma DiffIgnoresOtherFields(current: map<string, File>, previous: map<string, File>)
    requires current.Keys == previous.Keys
    requires forall p :: p in current ==> current[p].modified == previous[p].modified && current[p].size == previous[p].size
    ensures Added(current, previous) == map[] && Removed(current, previous) == map[] && ModifiedPaths(current, previous) == map[]
  {
    assert Added(current, previous).Keys == {};
    assert Removed(current, previous).Keys == {};
    assert ModifiedPaths(current, previous).Keys == {};
  }

  /** A fresh differ reports nothing. */
  method FreshDiff() returns (added: map<string, File>, removed: map<string, File>, modified: map<string, File>)
    ensures added == map[] && removed == map[] && modified == map[]
  {
    var d := new Differ();
    added, removed, modified := d.Diff();
    DiffOfSame(map[]);
  }

  /** After two different snapshots `a` then `b` are handed to a fresh
      differ, its report is the change from `a` to `b`. */
  method UpdateTwiceThenDiff(a: map<string, File>, b: map<string, File>)
    returns (added: map<string, File>, removed: map<string, File>, modified: map<string, File>)
    requires a != map[] && a != b
    ensures added == Added(b, a) && removed == Removed(b, a) && modified == ModifiedPaths(b, a)
  {
    var d := new Differ();
    d.Update(a);
    d.Update(b);
    added, removed, modified := d.Diff();
  }
}
