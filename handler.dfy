/** The `Handler` of pkg/syncer/handler.go: the authoritative file map and
    ruleset map of the watched tree, and the merges that apply a freshly
    walked part of the tree to them. The filesystem, `filepath.Abs`, the
    `.gitignore` matcher and the clock are the fields of an `Env`. */
module Handlers {
  import opened Wrappers
  import opened Errors
  import opened Strings
  import opened Files
  import opened Events
  import opened Walker
  import opened Differs

  /** What the handler consults outside itself: `absolute` is
      `filepath.Abs`, `walk` is
      `GetFileByPathAndFolderByPathAndGitIgnoreByPathForPath` on the current
      filesystem (None when it errs), `matches` is `GitIgnore.MatchesPath`
      and `now` is `time.Now()`. */
  datatype Env = Env(
    absolute: string -> Option<string>,
    walk: string -> Option<Snapshot>,
    matches: (Ruleset, string) -> bool,
    now: int)

  /** The two maps a handler keeps. */
  datatype State = State(files: map<string, File>, rulesets: map<string, Ruleset>)

  // ---- Choosing the common path ----

  /** What the first loop of `handleFileByPath` leaves in `commonPath`:
      "" for an empty map, otherwise one of the keys, and (when "" is not a
      key) one of the fewest bytes. */
  predicate IsCommonPath(incoming: map<string, File>, c: string)
  {
    && (incoming == map[] ==> c == "")
    && (incoming != map[] ==> c in incoming)
    && ("" !in incoming && c != "" ==> forall p :: p in incoming ==> Utf8Len(c) <= Utf8Len(p))
  }

  /** The first loop of `handleFileByPath`: visit the keys in map order and
      keep the latest one no longer than the kept one. */
  method CommonPath(incoming: map<string, File>) returns (commonPath: string)
    ensures IsCommonPath(incoming, commonPath)
  {
    commonPath := "";
    var remaining := incoming.Keys;
    while remaining != {}
      invariant remaining <= incoming.Keys
      invariant remaining == incoming.Keys ==> commonPath == ""
      invariant remaining != incoming.Keys ==> commonPath in incoming && commonPath !in remaining
      invariant "" !in incoming && commonPath != "" ==>
        forall p :: p in incoming && p !in remaining ==> Utf8Len(commonPath) <= Utf8Len(p)
      decreases remaining
    {
      var path :| path in remaining;
      remaining := remaining - {path};
      if commonPath != "" && Utf8Len(path) > Utf8Len(commonPath) {
        continue;
      }
      commonPath := path;
    }
  }

  /** When no key is "" (paths are absolute), the common path is "" exactly
      for an empty map, and otherwise a key no other key is shorter than. */
  lemma CommonPathMeaning(incoming: map<string, File>, c: string)
    requires IsCommonPath(incoming, c)
    requires "" !in incoming
    ensures c == "" <==> incoming == map[]
    ensures c != "" ==> c in incoming && forall p :: p in incoming ==> Utf8Len(c) <= Utf8Len(p)
  {
  }

  // ---- The merges ----

  /** The keys among `keys` that have one of `prefixes` as a string
      prefix. */
  function Covered(keys: set<string>, prefixes: set<string>): set<string>
  {
    set p | p in keys && exists q :: q in prefixes && HasPrefix(p, q)
  }

  /** The Modified merge: store every incoming entry, then drop every other
      key that has the common path as a string prefix. */
  function MergeModified(files: map<string, File>, incoming: map<string, File>, c: string): map<string, File>
  {
    if c == "" then files + incoming
    else (files + incoming) - (set p | p in files && HasPrefix(p, c) && p !in incoming)
  }

  /** The Deleted merge: drop every key that has a incoming key as a string
      prefix. */
  function MergeDeleted(files: map<string, File>, prefixes: set<string>): map<string, File>
  {
    files - Covered(files.Keys, prefixes)
  }

  /** `handleFileByPath` on the file map. */
  function MergeFiles(operation: Operation, files: map<string, File>, incoming: map<string, File>, c: string): map<string, File>
  {
    match operation
    case Created => files + incoming
    case Modified => MergeModified(files, incoming, c)
    case Deleted => MergeDeleted(files, incoming.Keys)
    case _ => files
  }

  /** `handleGitIgnoreByPath`: Created and Modified store the incoming
      rulesets; Deleted drops, from the FILE map, the existing ruleset keys
      a incoming key prefixes, and leaves the ruleset map as it is. */
  function MergeRulesets(operation: Operation, s: State, incoming: map<string, Ruleset>): State
  {
    if operation == Created || operation == Modified then s.(rulesets := s.rulesets + incoming)
    else if operation == Deleted then s.(files := s.files - Covered(s.rulesets.Keys, incoming.Keys))
    else s
  }

  // ---- The loops of the merges ----

  /** `for path, v := range incoming { m[path] = v }`. */
  method Upsert<V>(m: map<string, V>, incoming: map<string, V>) returns (r: map<string, V>)
    ensures r == m + incoming
  {
    r := m;
    var remaining := incoming.Keys;
    while remaining != {}
      invariant remaining <= incoming.Keys
      invariant r.Keys == m.Keys + (incoming.Keys - remaining)
      invariant forall p :: p in r ==> r[p] == if p in incoming && p !in remaining then incoming[p] else m[p]
      decreases remaining
    {
      var path :| path in remaining;
      remaining := remaining - {path};
      r := r[path := incoming[path]];
    }
  }

  /** The collecting loop of the Modified merge: the existing keys with the
      common path as a prefix that the incoming map does not hold. */
  method StalePaths(existing: set<string>, incoming: set<string>, c: string) returns (paths: seq<string>)
    ensures forall p :: p in paths <==> p in existing && HasPrefix(p, c) && p !in incoming
  {
    paths := [];
    var remaining := existing;
    while remaining != {}
      invariant remaining <= existing
      invariant forall p :: p in paths <==> p in existing - remaining && HasPrefix(p, c) && p !in incoming
      decreases remaining
    {
      var existingPath :| existingPath in remaining;
      remaining := remaining - {existingPath};
      if !HasPrefix(existingPath, c) {
        continue;
      }
      if existingPath in incoming {
        continue;
      }
      paths := paths + [existingPath];
    }
  }

  /** The nested collecting loop of the Deleted merges: for each prefix,
      every existing key it prefixes. */
  method CoveredPaths(existing: set<string>, prefixes: set<string>) returns (paths: seq<string>)
    ensures forall p :: p in paths <==> p in Covered(existing, prefixes)
  {
    paths := [];
    var outer := prefixes;
    while outer != {}
      invariant outer <= prefixes
      invariant forall p :: p in paths <==> p in Covered(existing, prefixes - outer)
      decreases outer
    {
      var path :| path in outer;
      outer := outer - {path};
      var inner := existing;
      ghost var before := paths;
      while inner != {}
        invariant inner <= existing
        invariant forall p :: p in paths <==> p in before || (p in existing - inner && HasPrefix(p, path))
        decreases inner
      {
        var existingPath :| existingPath in inner;
        inner := inner - {existingPath};
        if !HasPrefix(existingPath, path) {
          continue;
        }
        paths := paths + [existingPath];
      }
      CoveredStep(existing, prefixes - (outer + {path}), path);
      assert prefixes - outer == (prefixes - (outer + {path})) + {path};
    }
  }

  lemma CoveredStep(existing: set<string>, done: set<string>, q: string)
    ensures Covered(existing, done + {q}) == Covered(existing, done) + set p | p in existing && HasPrefix(p, q)
  {
  }

  /** `for _, path := range paths { delete(m, path) }`; `deleted` is the
      set of the listed paths. */
  method DeletePaths<V>(m: map<string, V>, paths: seq<string>, ghost deleted: set<string>) returns (r: map<string, V>)
    requires forall p :: p in paths <==> p in deleted
    ensures r == m - deleted
  {
    r := m;
    for i := 0 to |paths|
      invariant forall p :: p in r <==> p in m && p !in paths[..i]
      invariant forall p :: p in r ==> r[p] == m[p]
    {
      assert paths[..i + 1] == paths[..i] + [paths[i]];
      r := r - {paths[i]};
    }
    assert paths[..|paths|] == paths;
    assert r.Keys == (m - deleted).Keys;
  }

  // ---- The handler's operations on its state ----

  /** `add`: a failed walk changes nothing; otherwise the fresh rulesets and
      then the fresh files are merged as Created. */
  function AddSpec(s: State, walked: Option<Snapshot>): State
  {
    match walked
    case None => s
    case Some(snap) =>
      var s' := MergeRulesets(Created, s, snap.rulesets);
      s'.(files := MergeFiles(Created, s'.files, snap.fileByPath, ""))
  }

  /** `update`: like `add`, with Modified merges; `c` is the common path
      the merge chose. */
  function UpdateSpec(s: State, walked: Option<Snapshot>, c: string): State
  {
    match walked
    case None => s
    case Some(snap) =>
      var s' := MergeRulesets(Modified, s, snap.rulesets);
      s'.(files := MergeFiles(Modified, s'.files, snap.fileByPath, c))
  }

  /** What `remove` merges as Deleted: the walk's files and rulesets, or,
      when the walk fails, a synthetic folder at `path` (dropped when the
      current rulesets ignore it) and no rulesets. */
  function Removal(s: State, path: string, env: Env): (map<string, File>, map<string, Ruleset>)
  {
    match env.walk(path)
    case Some(snap) => (snap.fileByPath, snap.rulesets)
    case None =>
      var folder := GetFolderWithFakeInfo(path, env.now);
      (if GitIgnored(folder.path, s.rulesets, env.matches) then map[] else map[path := folder], map[])
  }

  /** `remove`: merge the removal as Deleted, rulesets first. */
  function RemoveSpec(s: State, path: string, env: Env): State
  {
    var removal := Removal(s, path, env);
    var s' := MergeRulesets(Deleted, s, removal.1);
    s'.(files := MergeFiles(Deleted, s'.files, removal.0, ""))
  }

  /** The dispatch of `handleEvent` once the event's paths are filled in. */
  function Dispatch(s: State, e: Event, env: Env, root: string): State
  {
    var s1 := if e.operation == Created then AddSpec(s, env.walk(e.path)) else s;
    var s2 := if e.operation == Deleted then RemoveSpec(s1, e.path, env) else s1;
    if e.operation == Modified || (e.operation == Moved && HasPrefix(e.parentPath, root)) then
      AddSpec(RemoveSpec(s2, e.parentPath, env), env.walk(e.parentPath))
    else s2
  }

  /** The event `handleEvent` completes: `path` is the absolute form of the
      name and `parentPath` its directory without trailing '/'. */
  function Completed(e: Event, absolute: string): Event
  {
    e.(path := absolute, parentPath := ParentPath(absolute))
  }

  class Handler {
    /** `fileByPath`. */
    var fileByPath: map<string, File>
    /** `gitIgnoreByPath`. */
    var gitIgnoreByPath: map<string, Ruleset>
    /** Whether `watcher` has been set (it is only ever compared with nil). */
    var hasWatcher: bool
    /** The root of the watched tree. */
    const path: string
    const differ: Differ

    function Model(): State
      reads this
    {
      State(fileByPath, gitIgnoreByPath)
    }

    /** `GetHandler`: empty maps and no watcher. */
    constructor (path: string, differ: Differ)
      ensures fileByPath == map[] && gitIgnoreByPath == map[] && !hasWatcher
      ensures this.path == path && this.differ == differ
    {
      fileByPath, gitIgnoreByPath, hasWatcher := map[], map[], false;
      this.path, this.differ := path, differ;
    }

    /** `handleFileByPath`; `commonPath` is the path the first loop chose. */
    method HandleFileByPath(operation: Operation, incoming: map<string, File>) returns (ghost commonPath: string)
      modifies this
      ensures IsCommonPath(incoming, commonPath)
      ensures fileByPath == MergeFiles(operation, old(fileByPath), incoming, commonPath)
      ensures gitIgnoreByPath == old(gitIgnoreByPath) && hasWatcher == old(hasWatcher)
    {
      var c := CommonPath(incoming);
      commonPath := c;
      if operation == Created {
        fileByPath := Upsert(fileByPath, incoming);
      }
      if operation == Modified {
        ghost var stale := set p | p in fileByPath && HasPrefix(p, c) && p !in incoming;
        fileByPath := Upsert(fileByPath, incoming);
        var pathsToDelete: seq<string> := [];
        if c != "" {
          pathsToDelete := StalePaths(fileByPath.Keys, incoming.Keys, c);
        } else {
          stale := {};
        }
        fileByPath := DeletePaths(fileByPath, pathsToDelete, stale);
      }
      if operation == Deleted {
        var pathsToDelete := CoveredPaths(fileByPath.Keys, incoming.Keys);
        fileByPath := DeletePaths(fileByPath, pathsToDelete, Covered(fileByPath.Keys, incoming.Keys));
      }
    }

    /** `handleGitIgnoreByPath`. */
    method HandleGitIgnoreByPath(operation: Operation, incoming: map<string, Ruleset>)
      modifies this
      ensures Model() == MergeRulesets(operation, old(Model()), incoming)
      ensures hasWatcher == old(hasWatcher)
    {
      if operation == Created || operation == Modified {
        gitIgnoreByPath := Upsert(gitIgnoreByPath, incoming);
      }
      if operation == Deleted {
        var pathsToDelete := CoveredPaths(gitIgnoreByPath.Keys, incoming.Keys);
        fileByPath := DeletePaths(fileByPath, pathsToDelete, Covered(gitIgnoreByPath.Keys, incoming.Keys));
      }
    }

    /** `add`. */
    method Add(p: string, env: Env)
      modifies this
      ensures Model() == AddSpec(old(Model()), env.walk(p))
      ensures hasWatcher == old(hasWatcher)
    {
      var walked := env.walk(p);
      if walked.None? {
        return;
      }
      HandleGitIgnoreByPath(Created, walked.value.rulesets);
      ghost var _ := HandleFileByPath(Created, walked.value.fileByPath);
    }

    /** `update`; `commonPath` is the path its Modified merge chose. */
    method Update(p: string, env: Env) returns (ghost commonPath: string)
      modifies this
      ensures env.walk(p).Some? ==> IsCommonPath(env.walk(p).value.fileByPath, commonPath)
      ensures Model() == UpdateSpec(old(Model()), env.walk(p), commonPath)
      ensures hasWatcher == old(hasWatcher)
    {
      commonPath := "";
      var walked := env.walk(p);
      if walked.None? {
        return;
      }
      HandleGitIgnoreByPath(Modified, walked.value.rulesets);
      commonPath := HandleFileByPath(Modified, walked.value.fileByPath);
    }

    /** `remove`. */
    method Remove(p: string, env: Env)
      modifies this
      ensures Model() == RemoveSpec(old(Model()), p, env)
      ensures hasWatcher == old(hasWatcher)
    {
      var incoming: map<string, File>;
      var incomingRulesets: map<string, Ruleset>;
      var walked := env.walk(p);
      if walked.None? {
        incoming := AssumedFolder(p, env);
        incomingRulesets := map[];
      } else {
        incoming, incomingRulesets := walked.value.fileByPath, walked.value.rulesets;
      }
      HandleGitIgnoreByPath(Deleted, incomingRulesets);
      ghost var _ := HandleFileByPath(Deleted, incoming);
    }

    /** The fallback of `remove` when the walk fails: index the synthetic
        folder at `p`, unless the current rulesets ignore it. */
    method AssumedFolder(p: string, env: Env) returns (incoming: map<string, File>)
      ensures var folder := GetFolderWithFakeInfo(p, env.now);
        incoming == if GitIgnored(p, gitIgnoreByPath, env.matches) then map[] else map[p := folder]
    {
      var folder := GetFolderWithFakeInfo(p, env.now);
      var files, keys := GetFilesFromFileByPath(map[p := folder]);
      OnlyValue(map[p := folder], files, keys);
      var g := gitIgnoreByPath;
      files := FilterFiles(files, g, env.matches);
      var kept := FilteredFolder(folder, files, g, env.matches);
      var indexed := GetFileByPathFromFiles(files);
      if indexed.Failure? {
        assert false;
      }
      incoming := indexed.value;
      IndexOfAtMostOne(incoming, kept);
    }

    /** `handleEvent`: complete the event's paths, refuse it while no watcher
        is set, then add, remove, or remove and re-add the parent folder. */
    method HandleEvent(event: Event, env: Env) returns (handled: Event, err: Option<Error>)
      modifies this
      ensures env.absolute(event.name).None? ==>
        handled == event && err == Some(AbsFailed(event.name)) && Model() == old(Model())
      ensures env.absolute(event.name).Some? ==> handled == Completed(event, env.absolute(event.name).value)
      ensures env.absolute(event.name).Some? && !hasWatcher ==> err == Some(WatcherNil) && Model() == old(Model())
      ensures env.absolute(event.name).Some? && hasWatcher ==> err == None && Model() == Dispatch(old(Model()), handled, env, path)
      ensures hasWatcher == old(hasWatcher)
    {
      handled := event;
      var absolute := env.absolute(event.name);
      if absolute.None? {
        return handled, Some(AbsFailed(event.name));
      }
      var parentPath := Split(absolute.value).0;
      handled := handled.(path := absolute.value, parentPath := TrimRight(parentPath, '/'));
      if !hasWatcher {
        return handled, Some(WatcherNil);
      }
      ghost var s := Model();
      if handled.operation == Created {
        Add(handled.path, env);
      }
      ghost var s1 := Model();
      if handled.operation == Deleted {
        Remove(handled.path, env);
      }
      if handled.operation == Modified || (handled.operation == Moved && HasPrefix(handled.parentPath, path)) {
        Remove(handled.parentPath, env);
        Add(handled.parentPath, env);
      }
      return handled, None;
    }

    /** `updateDiffer`: hand the file map to the differ, then diff. */
    method UpdateDiffer()
      modifies differ
      ensures old(differ.current) == fileByPath ==> differ.current == old(differ.current) && differ.previous == old(differ.previous)
      ensures old(differ.current) != fileByPath ==> differ.previous == old(differ.current) && differ.current == fileByPath
    {
      differ.Update(fileByPath);
      var _, _, _ := differ.Diff();
    }

    /** `setWatcher`: record the watcher, add the whole tree, update the
        differ. */
    method SetWatcher(env: Env)
      modifies this, differ
      ensures hasWatcher
      ensures Model() == AddSpec(old(Model()), env.walk(path))
      ensures old(differ.current) == fileByPath ==> differ.current == old(differ.current) && differ.previous == old(differ.previous)
      ensures old(differ.current) != fileByPath ==> differ.previous == old(differ.current) && differ.current == fileByPath
    {
      hasWatcher := true;
      Add(path, env);
      UpdateDiffer();
    }
  }

  /** A one-entry map yields its one value. */
  lemma OnlyValue(m: map<string, File>, files: seq<File>, keys: seq<string>)
    requires |files| == |keys| == 1
    requires forall i :: 0 <= i < |keys| ==> keys[i] in m && files[i] == m[keys[i]]
    requires forall p :: p in m ==> p in keys
    ensures forall p :: p in m ==> files == [m[p]]
  {
  }

  /** Filtering the synthetic folder leaves it or nothing. */
  lemma FilteredFolder(folder: File, files: seq<File>, rulesets: map<string, Ruleset>, matches: (Ruleset, string) -> bool)
    returns (kept: seq<File>)
    requires multiset(files) == multiset(Kept([folder], rulesets, matches))
    ensures kept == files
    ensures GitIgnored(folder.path, rulesets, matches) ==> kept == []
    ensures !GitIgnored(folder.path, rulesets, matches) ==> kept == [folder]
  {
    kept := files;
    var ignored := p => GitIgnored(p, rulesets, matches);
    assert [folder][..0] == [];
    assert Kept([folder], rulesets, matches) == Unignored([], ignored) + (if ignored(folder.path) then [] else [folder]);
    if GitIgnored(folder.path, rulesets, matches) {
      assert multiset(files) == multiset{};
    } else {
      assert multiset(files) == multiset{folder};
      assert |files| == 1;
      assert files[0] in multiset(files);
    }
  }

  /** The index of no file or of one file. */
  lemma IndexOfAtMostOne(index: map<string, File>, files: seq<File>)
    requires IndexOf(index, files)
    requires |files| <= 1
    ensures files == [] ==> index == map[]
    ensures |files| == 1 ==> index == map[files[0].path := files[0]]
  {
    if |files| == 1 {
      assert Paths(files) == {files[0].path};
    }
  }

  // ---- What the merges mean ----

  /** A Created merge stores every incoming entry, drops no key and leaves
      the other entries alone; merging the same map again changes nothing. */
  lemma CreatedMerge(files: map<string, File>, incoming: map<string, File>, c: string)
    ensures var r := MergeFiles(Created, files, incoming, c);
      && (forall p :: p in incoming ==> p in r && r[p] == incoming[p])
      && files.Keys <= r.Keys
      && (forall p :: p in files && p !in incoming ==> r[p] == files[p])
      && r.Keys <= files.Keys + incoming.Keys
    ensures MergeFiles(Created, MergeFiles(Created, files, incoming, c), incoming, c) == MergeFiles(Created, files, incoming, c)
  {
    var r := files + incoming;
    assert (r + incoming).Keys == r.Keys;
  }

  /** A Modified merge with common path `c`: below `c` exactly the incoming
      keys remain; every incoming entry is stored; a key outside both is
      left alone. */
  lemma ModifiedMerge(files: map<string, File>, incoming: map<string, File>, c: string)
    requires c != ""
    ensures var r := MergeFiles(Modified, files, incoming, c);
      && (forall p :: p in r && HasPrefix(p, c) <==> p in incoming && HasPrefix(p, c))
      && (forall p :: p in incoming ==> p in r && r[p] == incoming[p])
      && (forall p :: p in files && p !in incoming && !HasPrefix(p, c) ==> p in r && r[p] == files[p])
      && r.Keys <= files.Keys + incoming.Keys
  {
  }

  /** A Modified merge of an empty map, whose common path is "", changes
      nothing. */
  lemma ModifiedMergeOfNothing(files: map<string, File>, c: string)
    requires IsCommonPath(map[], c)
    ensures MergeFiles(Modified, files, map[], c) == files
  {
    assert files + map[] == files;
  }

  /** A Deleted merge drops exactly the keys some incoming key prefixes,
      inserts nothing, and leaves the remaining entries alone. */
  lemma DeletedMerge(files: map<string, File>, incoming: map<string, File>, c: string)
    ensures var r := MergeFiles(Deleted, files, incoming, c);
      && (forall p :: p in r <==> p in files && forall q :: q in incoming ==> !HasPrefix(p, q))
      && (forall p :: p in r ==> r[p] == files[p])
  {
  }

  /** The prefix test is on strings, not on path segments: deleting `dir`
      also drops a sibling whose name merely starts like it, as "/r/ab"
      when "/r/a" is deleted. */
  lemma DeletedMergeIsStringPrefix(files: map<string, File>, dir: string, rest: string)
    requires dir + rest in files
    ensures dir + rest !in MergeDeleted(files, {dir})
  {
    assert (dir + rest)[..|dir|] == dir;
  }

  /** `handleGitIgnoreByPath`: Created and Modified store the incoming
      rulesets and leave the files alone; Deleted leaves the rulesets alone
      and drops from the files exactly the existing ruleset keys an
      incoming key prefixes. */
  lemma RulesetMerge(s: State, operation: Operation, incoming: map<string, Ruleset>)
    ensures operation == Created || operation == Modified ==>
      var r := MergeRulesets(operation, s, incoming);
      r.files == s.files && r.rulesets == s.rulesets + incoming
    ensures operation == Deleted ==>
      var r := MergeRulesets(operation, s, incoming);
      && r.rulesets == s.rulesets
      && (forall p :: p in r.files <==>
            p in s.files && !(p in s.rulesets && exists q :: q in incoming && HasPrefix(p, q)))
      && (forall p :: p in r.files ==> r.files[p] == s.files[p])
    ensures operation == Moved || operation == Unknown ==> MergeRulesets(operation, s, incoming) == s
  {
  }

  /** A failed walk leaves `add` and `update` without effect. */
  lemma FailedWalkChangesNothing(s: State, c: string)
    ensures AddSpec(s, None) == s && UpdateSpec(s, None, c) == s
  {
  }

  /** Adding the same walk twice is adding it once. */
  lemma AddIdempotent(s: State, walked: Option<Snapshot>)
    ensures AddSpec(AddSpec(s, walked), walked) == AddSpec(s, walked)
  {
    if walked.Some? {
      var snap := walked.value;
      var r := s.rulesets + snap.rulesets;
      var f := s.files + snap.fileByPath;
      assert (r + snap.rulesets).Keys == r.Keys;
      assert (f + snap.fileByPath).Keys == f.Keys;
    }
  }

  /** When the walk in `remove` fails, the rulesets stay and the files lose
      the keys the path prefixes, unless the rulesets ignore the path. */
  lemma RemoveWithoutWalk(s: State, path: string, env: Env)
    requires env.walk(path).None?
    ensures var r := RemoveSpec(s, path, env);
      && r.rulesets == s.rulesets
      && r.files == MergeDeleted(s.files, if GitIgnored(path, s.rulesets, env.matches) then {} else {path})
  {
    var keys := FakeRemovalKeys(s, path, env);
    RemoveWithoutRulesets(s, path, env);
  }

  /** The keys the failed walk's synthetic removal holds. */
  lemma FakeRemovalKeys(s: State, path: string, env: Env) returns (keys: set<string>)
    requires env.walk(path).None?
    ensures Removal(s, path, env).1 == map[]
    ensures keys == Removal(s, path, env).0.Keys
    ensures keys == if GitIgnored(path, s.rulesets, env.matches) then {} else {path}
  {
    keys := Removal(s, path, env).0.Keys;
  }

  /** A removal without rulesets only deletes files. */
  lemma RemoveWithoutRulesets(s: State, path: string, env: Env)
    requires Removal(s, path, env).1 == map[]
    ensures RemoveSpec(s, path, env) == s.(files := MergeDeleted(s.files, Removal(s, path, env).0.Keys))
  {
    NoRulesetsRemoved(s);
  }

  /** Deleting no rulesets changes nothing. */
  lemma NoRulesetsRemoved(s: State)
    ensures MergeRulesets(Deleted, s, map[]) == s
  {
    assert Covered(s.rulesets.Keys, {}) == {};
    assert s.files - {} == s.files;
  }

  /** Hence: not ignored, every file key the path prefixes is dropped and the
      rest stays as it was; ignored, nothing changes. */
  lemma RemoveWithoutWalkMeaning(s: State, path: string, env: Env)
    requires env.walk(path).None?
    ensures !GitIgnored(path, s.rulesets, env.matches) ==>
      var r := RemoveSpec(s, path, env);
      && r.rulesets == s.rulesets
      && (forall p :: p in r.files <==> p in s.files && !HasPrefix(p, path))
      && (forall p :: p in r.files ==> r.files[p] == s.files[p])
    ensures GitIgnored(path, s.rulesets, env.matches) ==> RemoveSpec(s, path, env) == s
  {
    RemoveWithoutWalk(s, path, env);
    if GitIgnored(path, s.rulesets, env.matches) {
      assert Covered(s.files.Keys, {}) == {};
    }
  }

  // ---- What `handleEvent` dispatches ----

  /** Created adds the event's path, Deleted removes it, Modified and a
      move inside the root remove and re-add the parent folder, and
      anything else does nothing; `update` is never used. */
  lemma DispatchCases(s: State, e: Event, env: Env, root: string)
    ensures e.operation == Created ==> Dispatch(s, e, env, root) == AddSpec(s, env.walk(e.path))
    ensures e.operation == Deleted ==> Dispatch(s, e, env, root) == RemoveSpec(s, e.path, env)
    ensures e.operation == Modified || (e.operation == Moved && HasPrefix(e.parentPath, root)) ==>
      Dispatch(s, e, env, root) == AddSpec(RemoveSpec(s, e.parentPath, env), env.walk(e.parentPath))
    ensures e.operation == Unknown || (e.operation == Moved && !HasPrefix(e.parentPath, root)) ==>
      Dispatch(s, e, env, root) == s
  {
  }

  /** After a Modified event whose parent folder walks, every file of that
      walk is in the file map as walked. */
  lemma ModifiedEventStoresWalk(s: State, e: Event, env: Env, root: string)
    requires e.operation == Modified && env.walk(e.parentPath).Some?
    ensures var snap := env.walk(e.parentPath).value;
      forall p :: p in snap.fileByPath ==> p in Dispatch(s, e, env, root).files && Dispatch(s, e, env, root).files[p] == snap.fileByPath[p]
  {
  }
}
