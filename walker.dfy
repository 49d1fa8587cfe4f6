/** The traversal, filter and index functions of pkg/syncer/walker.go. The
    traversal is a sequence of entries in the order the walk callback sees
    them; a compiled `.gitignore` file is an opaque `Ruleset`, and compiling
    one and matching a path against one are the parameters `compile` and
    `matches`. */
module Walker {
  import opened Wrappers
  import opened Errors
  import opened Strings
  import opened Files
  import opened IgnorePatterns

  /** A compiled `.gitignore` file. */
  type Ruleset(==)

  /** A ruleset keyed by a string prefix of `path` matches it. */
  predicate GitIgnored(path: string, rulesets: map<string, Ruleset>, matches: (Ruleset, string) -> bool)
  {
    exists key :: key in rulesets && HasPrefix(path, key) && matches(rulesets[key], path)
  }

  /** The inner loop of `FilterFiles` for one file: visit the rulesets in
      any order and stop at the first whose key prefixes the path and which
      matches it. */
  method IsGitIgnored(path: string, rulesets: map<string, Ruleset>, matches: (Ruleset, string) -> bool)
    returns (ignored: bool)
    ensures ignored <==> GitIgnored(path, rulesets, matches)
  {
    ignored := false;
    var remaining := rulesets.Keys;
    while remaining != {} && !ignored
      invariant remaining <= rulesets.Keys
      invariant ignored ==> GitIgnored(path, rulesets, matches)
      invariant !ignored ==> forall key :: key in rulesets && key !in remaining ==>
        !(HasPrefix(path, key) && matches(rulesets[key], path))
      decreases remaining
    {
      var key :| key in remaining;
      remaining := remaining - {key};
      if !HasPrefix(path, key) {
        continue;
      }
      if !matches(rulesets[key], path) {
        continue;
      }
      ignored := true;
    }
  }

  /** The files whose path `ignored` does not hold of, in input order. */
  function Unignored(files: seq<File>, ignored: string -> bool): seq<File>
  {
    if files == [] then []
    else
      var last := files[|files| - 1];
      Unignored(files[..|files| - 1], ignored) + (if ignored(last.path) then [] else [last])
  }

  /** The files no ruleset ignores, in input order. */
  function Kept(files: seq<File>, rulesets: map<string, Ruleset>, matches: (Ruleset, string) -> bool): seq<File>
  {
    Unignored(files, p => GitIgnored(p, rulesets, matches))
  }

  lemma {:induction false} UnignoredCount(files: seq<File>, ignored: string -> bool, f: File)
    ensures multiset(Unignored(files, ignored))[f] == if ignored(f.path) then 0 else multiset(files)[f]
  {
    if files != [] {
      var front, last := files[..|files| - 1], files[|files| - 1];
      UnignoredCount(front, ignored, f);
      assert files == front + [last];
      var keep := if ignored(last.path) then [] else [last];
      assert Unignored(files, ignored) == Unignored(front, ignored) + keep;
      assert multiset(Unignored(files, ignored)) == multiset(Unignored(front, ignored)) + multiset(keep);
      assert multiset(files) == multiset(front) + multiset{last};
    }
  }

  lemma {:induction false} UnignoredAll(files: seq<File>, ignored: string -> bool)
    requires forall f :: f in files ==> !ignored(f.path)
    ensures Unignored(files, ignored) == files
  {
    if files != [] {
      UnignoredAll(files[..|files| - 1], ignored);
      assert files == files[..|files| - 1] + [files[|files| - 1]];
    }
  }

  /** `FilterFiles`: one goroutine per file appends the file when no ruleset
      ignores it; goroutines finish in any order, so each file lands at a
      position the model leaves open. */
  method FilterFiles(files: seq<File>, rulesets: map<string, Ruleset>, matches: (Ruleset, string) -> bool)
    returns (filtered: seq<File>)
    ensures multiset(filtered) == multiset(Kept(files, rulesets, matches))
  {
    filtered := [];
    for i := 0 to |files|
      invariant multiset(filtered) == multiset(Kept(files[..i], rulesets, matches))
    {
      assert files[..i + 1][..i] == files[..i];
      var ignored := IsGitIgnored(files[i].path, rulesets, matches);
      if !ignored {
        var at :| 0 <= at <= |filtered|;
        assert filtered == filtered[..at] + filtered[at..];
        filtered := filtered[..at] + [files[i]] + filtered[at..];
      }
    }
    assert files[..|files|] == files;
  }

  /** What `FilterFiles` promises: each file is kept, as often as it occurs,
      exactly when no ruleset keyed by a prefix of its path matches it; with
      no rulesets the output is a permutation of the input. */
  lemma {:induction false} FilterFilesMeaning(files: seq<File>, rulesets: map<string, Ruleset>, matches: (Ruleset, string) -> bool)
    ensures forall f :: (multiset(Kept(files, rulesets, matches))[f]
                         == if GitIgnored(f.path, rulesets, matches) then 0 else multiset(files)[f])
    ensures rulesets == map[] ==> multiset(Kept(files, rulesets, matches)) == multiset(files)
  {
    forall f {
      UnignoredCount(files, p => GitIgnored(p, rulesets, matches), f);
    }
    if rulesets == map[] {
      UnignoredAll(files, p => GitIgnored(p, rulesets, matches));
    }
  }

  /** The directory entries of `files`, in order. */
  function Dirs(files: seq<File>): seq<File>
  {
    if files == [] then []
    else Dirs(files[..|files| - 1]) + (if files[|files| - 1].isDir then [files[|files| - 1]] else [])
  }

  /** `FilterFolders`. */
  method FilterFolders(files: seq<File>) returns (folders: seq<File>)
    ensures folders == Dirs(files)
  {
    folders := [];
    for i := 0 to |files|
      invariant folders == Dirs(files[..i])
    {
      assert files[..i + 1][..i] == files[..i];
      if !files[i].isDir {
        continue;
      }
      folders := folders + [files[i]];
    }
    assert files[..|files|] == files;
  }

  /** `Dirs` keeps the order of the directories: it distributes over
      concatenation. */
  lemma {:induction false} DirsConcat(a: seq<File>, b: seq<File>)
    ensures Dirs(a + b) == Dirs(a) + Dirs(b)
    decreases |b|
  {
    if b == [] {
      assert a + b == a;
    } else {
      var front := b[..|b| - 1];
      DirsConcat(a, front);
      assert (a + b)[..|a + b| - 1] == a + front;
    }
  }

  /** `Dirs` keeps exactly the directories, as often as they occur. */
  lemma {:induction false} DirsCount(files: seq<File>, f: File)
    ensures multiset(Dirs(files))[f] == if f.isDir then multiset(files)[f] else 0
  {
    if files != [] {
      var front, last := files[..|files| - 1], files[|files| - 1];
      DirsCount(front, f);
      assert files == front + [last];
      assert multiset(files) == multiset(front) + multiset{last};
    }
  }

  /** Two entries share a path. */
  predicate HasDuplicatePaths(files: seq<File>)
  {
    exists i, j :: 0 <= i < j < |files| && files[i].path == files[j].path
  }

  /** The set of paths of `files`. */
  function Paths(files: seq<File>): set<string>
  {
    set f | f in files :: f.path
  }

  /** Every key of `index` maps to a file of `files` that has the key as its
      path. */
  predicate IndexOf(index: map<string, File>, files: seq<File>)
  {
    && index.Keys == Paths(files)
    && forall p :: p in index ==> index[p] in files && index[p].path == p
  }

  /** `GetFileByPathFromFiles`: index the files by path, failing on the
      first repeated path. */
  method GetFileByPathFromFiles(files: seq<File>) returns (r: Result<map<string, File>, Error>)
    ensures r.Failure? <==> HasDuplicatePaths(files)
    ensures r.Failure? ==> exists j :: 0 <= j < |files| && r.error == DuplicatePath(files[j].path)
    ensures r.Success? ==> IndexOf(r.value, files)
  {
    var fileByPath: map<string, File> := map[];
    for i := 0 to |files|
      invariant forall a, b :: 0 <= a < b < i ==> files[a].path != files[b].path
      invariant IndexOf(fileByPath, files[..i])
    {
      assert files[..i + 1] == files[..i] + [files[i]];
      if files[i].path in fileByPath {
        var k := IndexedEarlier(fileByPath, files[..i], files[i].path);
        assert files[k].path == files[i].path;
        return Failure(DuplicatePath(files[i].path));
      }
      IndexStep(fileByPath, files[..i], files[i]);
      fileByPath := fileByPath[files[i].path := files[i]];
    }
    assert files[..|files|] == files;
    return Success(fileByPath);
  }

  /** A path the index of `s` holds is the path of some element of `s`. */
  lemma IndexedEarlier(index: map<string, File>, s: seq<File>, p: string) returns (k: nat)
    requires IndexOf(index, s) && p in index
    ensures k < |s| && s[k].path == p
  {
    k :| 0 <= k < |s| && s[k] == index[p];
  }

  /** Indexing one more file whose path is new. */
  lemma IndexStep(index: map<string, File>, s: seq<File>, f: File)
    requires IndexOf(index, s) && f.path !in index
    ensures IndexOf(index[f.path := f], s + [f])
    ensures forall a :: 0 <= a < |s| ==> s[a].path != f.path
  {
    forall a | 0 <= a < |s|
      ensures s[a].path != f.path
    {
      assert s[a] in s;
    }
    assert Paths(s + [f]) == Paths(s) + {f.path};
  }

  /** Without repeated paths the index is unique. */
  lemma {:induction false} IndexUnique(a: map<string, File>, b: map<string, File>, files: seq<File>)
    requires !HasDuplicatePaths(files)
    requires IndexOf(a, files) && IndexOf(b, files)
    ensures a == b
  {
    forall p | p in a
      ensures a[p] == b[p]
    {
      var i :| 0 <= i < |files| && files[i] == a[p];
      var j :| 0 <= j < |files| && files[j] == b[p];
      assert files[i].path == files[j].path;
    }
  }

  /** `GetFilesFromFileByPath`: the map's values, one per key, in the map's
      iteration order (exposed as the ghost `keys`). */
  method GetFilesFromFileByPath(fileByPath: map<string, File>) returns (files: seq<File>, ghost keys: seq<string>)
    ensures |files| == |keys| == |fileByPath|
    ensures forall i, j :: 0 <= i < j < |keys| ==> keys[i] != keys[j]
    ensures forall i :: 0 <= i < |keys| ==> keys[i] in fileByPath && files[i] == fileByPath[keys[i]]
    ensures forall p :: p in fileByPath ==> p in keys
  {
    files, keys := [], [];
    var remaining := fileByPath.Keys;
    while remaining != {}
      invariant remaining <= fileByPath.Keys
      invariant |files| == |keys|
      invariant forall i, j :: 0 <= i < j < |keys| ==> keys[i] != keys[j]
      invariant forall i :: 0 <= i < |keys| ==> keys[i] in fileByPath && keys[i] !in remaining && files[i] == fileByPath[keys[i]]
      invariant forall p :: p in fileByPath ==> p in keys || p in remaining
      decreases remaining
    {
      var p :| p in remaining;
      files, keys := files + [fileByPath[p]], keys + [p];
      remaining := remaining - {p};
    }
    DistinctKeysCount(keys, fileByPath.Keys);
  }

  lemma {:induction false} DistinctKeysCount(keys: seq<string>, s: set<string>)
    requires forall i, j :: 0 <= i < j < |keys| ==> keys[i] != keys[j]
    requires forall p :: p in s <==> p in keys
    ensures |keys| == |s|
  {
    if keys != [] {
      var last := keys[|keys| - 1];
      var front := keys[..|keys| - 1];
      assert forall p :: p in s - {last} <==> p in front by {
        forall p
          ensures p in s - {last} <==> p in front
        {
          if p in keys && p != last {
            var i :| 0 <= i < |keys| && keys[i] == p;
            assert i < |keys| - 1;
            assert front[i] == p;
          }
        }
      }
      DistinctKeysCount(front, s - {last});
    }
  }

  /** One call of the walk callback: the path, the metadata the traversal
      supplies (None for a nil `os.FileInfo`) and the traversal's error. */
  datatype Entry = Entry(path: string, info: Option<FileInfo>, walkErr: Option<Error>)

  /** An entry the callback gets past its first three tests: no traversal
      error, and neither ignore pattern matches its path. */
  predicate Admitted(e: Entry)
  {
    e.walkErr.None? && !FolderIgnored(e.path) && !FileIgnored(e.path)
  }

  /** The callback's decision for one entry. `Emit` appends `file`, and
      registers `ruleset` under the file's parent path when present. */
  datatype Visit = Skip | Abort(err: Error) | Emit(file: File, ruleset: Option<Ruleset>)

  /** The walk callback for one entry: a traversal error aborts; a path
      either ignore pattern matches is skipped; a path that cannot be
      described aborts; a `.gitignore` file that compiles also yields a
      ruleset. */
  function VisitEntry(e: Entry, stat: string -> Option<FileInfo>, compile: string -> Option<Ruleset>): (v: Visit)
    ensures e.walkErr.Some? ==> v == Abort(e.walkErr.value)
    ensures v.Emit? ==> !FolderIgnored(e.path) && !FileIgnored(e.path) && v.file.path == e.path
    ensures v.Emit? ==> (v.ruleset.Some? <==> !v.file.isDir && v.file.name == ".gitignore" && compile(e.path).Some?)
    ensures v.Emit? && v.ruleset.Some? ==> v.ruleset == compile(e.path)
    ensures v.Skip? <==> e.walkErr.None? && (FolderIgnored(e.path) || FileIgnored(e.path))
    ensures Admitted(e) ==>
      && (Described(e.path, e.info, stat).None? ==> v == Abort(StatFailed(e.path)))
      && (Described(e.path, e.info, stat).Some? ==> v.Emit? && DescribedBy(v.file, e.path, Described(e.path, e.info, stat).value))
    ensures Admitted(e) && Described(e.path, e.info, stat).Some? ==>
      var i := Described(e.path, e.info, stat).value;
      !i.isDir && i.name == ".gitignore" && compile(e.path).Some? ==> v.ruleset == compile(e.path)
  {
    if e.walkErr.Some? then Abort(e.walkErr.value)
    else if FolderIgnored(e.path) then Skip
    else if FileIgnored(e.path) then Skip
    else
      match GetFileWithInfo(e.path, e.info, stat)
      case Failure(err) => Abort(err)
      case Success(file) =>
        Emit(file, if !file.isDir && file.name == ".gitignore" then compile(file.path) else None)
  }

  /** What the callbacks have accumulated, and the error that stopped the
      walk, if any. */
  datatype Progress = Progress(files: seq<File>, rulesets: map<string, Ruleset>, stopped: Option<Error>)

  /** One callback's effect; nothing happens once the walk has stopped. */
  function Apply(p: Progress, v: Visit): Progress
  {
    if p.stopped.Some? then p
    else
      match v
      case Skip => p
      case Abort(err) => p.(stopped := Some(err))
      case Emit(file, ruleset) =>
        p.(files := p.files + [file],
           rulesets := if ruleset.Some? then p.rulesets[file.parentPath := ruleset.value] else p.rulesets)
  }

  /** The progress after the callbacks for `entries`, in order. */
  function Visited(entries: seq<Entry>, stat: string -> Option<FileInfo>, compile: string -> Option<Ruleset>): Progress
  {
    if entries == [] then Progress([], map[], None)
    else Apply(Visited(entries[..|entries| - 1], stat, compile), VisitEntry(entries[|entries| - 1], stat, compile))
  }

  /** Once stopped, later entries change nothing. */
  lemma {:induction false} VisitedStops(entries: seq<Entry>, i: nat, stat: string -> Option<FileInfo>, compile: string -> Option<Ruleset>)
    requires i <= |entries|
    requires Visited(entries[..i], stat, compile).stopped.Some?
    ensures Visited(entries, stat, compile) == Visited(entries[..i], stat, compile)
    decreases |entries| - i
  {
    if i < |entries| {
      var next := entries[..i + 1];
      assert next[..i] == entries[..i];
      VisitedStops(entries, i + 1, stat, compile);
    } else {
      assert entries[..i] == entries;
    }
  }

  /** `GetFilesAndGitIgnoreByPath`: run the callback on each entry until one
      returns an error. `SkipDir` ends the walk as a success with what was
      accumulated; any other error fails it. */
  method GetFilesAndGitIgnoreByPath(entries: seq<Entry>, stat: string -> Option<FileInfo>, compile: string -> Option<Ruleset>)
    returns (r: Result<(seq<File>, map<string, Ruleset>), Error>)
    ensures var w := Visited(entries, stat, compile);
      && (r.Failure? <==> w.stopped.Some? && w.stopped.value != SkipDir)
      && (r.Failure? ==> r.error == w.stopped.value)
      && (r.Success? ==> r.value == (w.files, w.rulesets))
  {
    var files: seq<File> := [];
    var rulesets: map<string, Ruleset> := map[];
    var err: Option<Error> := None;
    var i := 0;
    while i < |entries| && err.None?
      invariant 0 <= i <= |entries|
      invariant Visited(entries[..i], stat, compile) == Progress(files, rulesets, err)
    {
      assert entries[..i + 1][..i] == entries[..i];
      match VisitEntry(entries[i], stat, compile) {
        case Skip =>
        case Abort(e) =>
          err := Some(e);
        case Emit(file, ruleset) =>
          if ruleset.Some? {
            rulesets := rulesets[file.parentPath := ruleset.value];
          }
          files := files + [file];
      }
      i := i + 1;
    }
    if err.Some? {
      VisitedStops(entries, i, stat, compile);
    } else {
      assert entries[..i] == entries;
    }
    if err.Some? && err.value != SkipDir {
      return Failure(err.value);
    }
    return Success((files, rulesets));
  }

  /** A file the callback compiles into a ruleset. */
  predicate CompiledGitIgnore(f: File, compile: string -> Option<Ruleset>)
  {
    !f.isDir && f.name == ".gitignore" && compile(f.path).Some?
  }

  /** Every emitted file is described from one of the entries, under that
      entry's path, and neither ignore pattern matches that path. */
  lemma {:induction false} VisitedFilesNotIgnored(entries: seq<Entry>, stat: string -> Option<FileInfo>, compile: string -> Option<Ruleset>)
    ensures forall f :: f in Visited(entries, stat, compile).files ==>
      && !FolderIgnored(f.path) && !FileIgnored(f.path)
      && exists e :: e in entries && e.path == f.path
  {
    if entries != [] {
      var front, last := entries[..|entries| - 1], entries[|entries| - 1];
      VisitedFilesNotIgnored(front, stat, compile);
      forall f | f in Visited(entries, stat, compile).files
        ensures !FolderIgnored(f.path) && !FileIgnored(f.path)
        ensures exists e :: e in entries && e.path == f.path
      {
        if f !in Visited(front, stat, compile).files {
          assert f.path == last.path;
        } else {
          var e :| e in front && e.path == f.path;
          assert e in entries;
        }
      }
    }
  }

  /** Some file of `files` is the record `e`'s info describes. */
  predicate EmittedIn(e: Entry, files: seq<File>, stat: string -> Option<FileInfo>)
  {
    Described(e.path, e.info, stat).Some? && exists f :: f in files && DescribedBy(f, e.path, Described(e.path, e.info, stat).value)
  }

  /** A walk that did not stop emitted every admitted entry. */
  lemma {:induction false} VisitedEmitsAdmitted(entries: seq<Entry>, stat: string -> Option<FileInfo>, compile: string -> Option<Ruleset>)
    requires Visited(entries, stat, compile).stopped.None?
    ensures forall e :: e in entries && Admitted(e) ==> EmittedIn(e, Visited(entries, stat, compile).files, stat)
  {
    if entries != [] {
      var front, last := entries[..|entries| - 1], entries[|entries| - 1];
      var p := Visited(front, stat, compile);
      var w := Visited(entries, stat, compile);
      var v := VisitEntry(last, stat, compile);
      assert w == Apply(p, v);
      assert p.stopped.None?;
      VisitedEmitsAdmitted(front, stat, compile);
      assert forall f :: f in p.files ==> f in w.files;
      forall e | e in entries && Admitted(e)
        ensures EmittedIn(e, w.files, stat)
      {
        if e in front {
          assert EmittedIn(e, p.files, stat);
          var f :| f in p.files && DescribedBy(f, e.path, Described(e.path, e.info, stat).value);
          assert f in w.files;
        } else {
          assert e == last;
          assert v.file in w.files;
        }
      }
    }
  }

  /** A walk that did not stop holds the record of every admitted entry,
      and, for a `.gitignore` file that compiles, a ruleset under its
      parent path. */
  lemma VisitedComplete(entries: seq<Entry>, stat: string -> Option<FileInfo>, compile: string -> Option<Ruleset>)
    requires Visited(entries, stat, compile).stopped.None?
    ensures forall e :: e in entries && Admitted(e) ==>
      && Described(e.path, e.info, stat).Some?
      && exists f :: f in Visited(entries, stat, compile).files && DescribedBy(f, e.path, Described(e.path, e.info, stat).value)
    ensures forall e :: e in entries && Admitted(e) && Described(e.path, e.info, stat).Some? ==>
      var i := Described(e.path, e.info, stat).value;
      !i.isDir && i.name == ".gitignore" && compile(e.path).Some? ==> ParentPath(e.path) in Visited(entries, stat, compile).rulesets
  {
    var w := Visited(entries, stat, compile);
    VisitedEmitsAdmitted(entries, stat, compile);
    VisitedRulesets(entries, stat, compile);
    forall e | e in entries && Admitted(e) && Described(e.path, e.info, stat).Some?
      ensures var i := Described(e.path, e.info, stat).value;
        !i.isDir && i.name == ".gitignore" && compile(e.path).Some? ==> ParentPath(e.path) in w.rulesets
    {
      var i := Described(e.path, e.info, stat).value;
      assert EmittedIn(e, w.files, stat);
      var f :| f in w.files && DescribedBy(f, e.path, i);
      if !i.isDir && i.name == ".gitignore" && compile(e.path).Some? {
        assert CompiledGitIgnore(f, compile);
      }
    }
  }

  /** The rulesets of `p` are registered under exactly the parent paths of
      its `.gitignore` files that compile, each with the compiled form of
      one of them. */
  predicate RulesetsOfFiles(p: Progress, compile: string -> Option<Ruleset>)
  {
    && (forall k :: k in p.rulesets ==>
          exists f :: f in p.files && CompiledGitIgnore(f, compile) && f.parentPath == k && compile(f.path) == Some(p.rulesets[k]))
    && (forall f :: f in p.files && CompiledGitIgnore(f, compile) ==> f.parentPath in p.rulesets)
  }

  /** A visit registers a ruleset exactly for a compiled `.gitignore` file. */
  predicate RegistersCompiled(v: Visit, compile: string -> Option<Ruleset>)
  {
    v.Emit? ==> (v.ruleset.Some? <==> CompiledGitIgnore(v.file, compile)) && (v.ruleset.Some? ==> v.ruleset == compile(v.file.path))
  }

  lemma {:induction false} ApplyKeepsRulesetsOfFiles(p: Progress, v: Visit, compile: string -> Option<Ruleset>)
    requires RulesetsOfFiles(p, compile) && RegistersCompiled(v, compile)
    ensures RulesetsOfFiles(Apply(p, v), compile)
  {
    if p.stopped.None? && v.Emit? {
      var w := Apply(p, v);
      assert w.files == p.files + [v.file];
      forall k | k in w.rulesets
        ensures exists f :: f in w.files && CompiledGitIgnore(f, compile) && f.parentPath == k && compile(f.path) == Some(w.rulesets[k])
      {
        if v.ruleset.Some? && k == v.file.parentPath {
          assert v.file in w.files;
        } else {
          var f :| f in p.files && CompiledGitIgnore(f, compile) && f.parentPath == k && compile(f.path) == Some(p.rulesets[k]);
          assert f in w.files;
        }
      }
    }
  }

  /** A ruleset is registered under exactly the parent paths of the emitted
      `.gitignore` files that compile, each time with the compiled form of
      one of them; the `.gitignore` file itself is emitted too. */
  lemma {:induction false} VisitedRulesets(entries: seq<Entry>, stat: string -> Option<FileInfo>, compile: string -> Option<Ruleset>)
    ensures RulesetsOfFiles(Visited(entries, stat, compile), compile)
  {
    if entries != [] {
      var front := entries[..|entries| - 1];
      VisitedRulesets(front, stat, compile);
      ApplyKeepsRulesetsOfFiles(Visited(front, stat, compile), VisitEntry(entries[|entries| - 1], stat, compile), compile);
    }
  }

  /** A traversal error at entry `i`, before anything has stopped the walk,
      ends it there: the files and rulesets are those of the earlier
      entries. */
  lemma {:induction false} WalkErrorStops(entries: seq<Entry>, i: nat, stat: string -> Option<FileInfo>, compile: string -> Option<Ruleset>)
    requires i < |entries| && entries[i].walkErr.Some?
    requires Visited(entries[..i], stat, compile).stopped.None?
    ensures Visited(entries, stat, compile) == Visited(entries[..i], stat, compile).(stopped := entries[i].walkErr)
  {
    var next := entries[..i + 1];
    assert next[..i] == entries[..i] && next[i] == entries[i];
    var p := Visited(entries[..i], stat, compile);
    assert Visited(next, stat, compile) == Apply(p, VisitEntry(entries[i], stat, compile));
    assert Visited(next, stat, compile) == p.(stopped := entries[i].walkErr);
    VisitedStops(entries, i + 1, stat, compile);
  }

  /** A repeated element occurs at least twice. */
  lemma {:induction false} RepeatCount<T>(s: seq<T>, i: nat, j: nat)
    requires i < j < |s| && s[i] == s[j]
    ensures multiset(s)[s[i]] >= 2
  {
    assert s == s[..j] + s[j..];
    assert s[i] in s[..j];
    assert s[j] in s[j..];
    assert multiset(s) == multiset(s[..j]) + multiset(s[j..]);
  }

  /** An element occurring at least twice sits at two positions. */
  lemma {:induction false} TwoPositions<T>(s: seq<T>, x: T) returns (i: nat, j: nat)
    requires multiset(s)[x] >= 2
    ensures i < j < |s| && s[i] == x && s[j] == x
  {
    assert x in multiset(s);
    var k :| 0 <= k < |s| && s[k] == x;
    var rest := s[..k] + s[k + 1..];
    assert s == s[..k] + [x] + s[k + 1..];
    assert multiset(s) == multiset(rest) + multiset{x};
    assert x in multiset(rest);
    var m :| 0 <= m < |rest| && rest[m] == x;
    if m < k {
      assert s[m] == x;
      i, j := m, k;
    } else {
      assert s[m + 1] == x;
      i, j := k, m + 1;
    }
  }

  /** Repeated paths carry over to any sequence holding at least the same
      files, in particular to any reordering. */
  lemma {:induction false} DuplicatesInclusion(a: seq<File>, b: seq<File>)
    requires multiset(a) <= multiset(b)
    requires HasDuplicatePaths(a)
    ensures HasDuplicatePaths(b)
  {
    var i, j :| 0 <= i < j < |a| && a[i].path == a[j].path;
    if a[i] == a[j] {
      RepeatCount(a, i, j);
      var i', j' := TwoPositions(b, a[i]);
      assert b[i'].path == b[j'].path;
    } else {
      assert a[i] in multiset(a) && a[j] in multiset(a);
      assert a[i] in multiset(b) && a[j] in multiset(b);
      var i' :| 0 <= i' < |b| && b[i'] == a[i];
      var j' :| 0 <= j' < |b| && b[j'] == a[j];
      if i' < j' {
        assert b[i'].path == b[j'].path;
      } else {
        assert b[j'].path == b[i'].path;
      }
    }
  }

  /** An index of one ordering of the files is an index of any other. */
  lemma {:induction false} IndexOfPermutation(index: map<string, File>, a: seq<File>, b: seq<File>)
    requires multiset(a) == multiset(b)
    requires IndexOf(index, a)
    ensures IndexOf(index, b)
  {
    forall f
      ensures f in a <==> f in b
    {
      assert f in a <==> f in multiset(a);
      assert f in b <==> f in multiset(b);
    }
  }

  /** Without repeated paths, a path names one file. */
  lemma {:induction false} SamePathSameFile(files: seq<File>, f: File, g: File)
    requires !HasDuplicatePaths(files)
    requires f in files && g in files && f.path == g.path
    ensures f == g
  {
    var i :| 0 <= i < |files| && files[i] == f;
    var j :| 0 <= j < |files| && files[j] == g;
    assert !(i < j) && !(j < i);
  }

  lemma {:induction false} DirsMembers(files: seq<File>)
    ensures forall f :: f in Dirs(files) <==> f in files && f.isDir
  {
    forall f
      ensures f in Dirs(files) <==> f in files && f.isDir
    {
      DirsCount(files, f);
      assert f in Dirs(files) <==> f in multiset(Dirs(files));
      assert f in files <==> f in multiset(files);
    }
  }

  /** A repeated path among the directories is a repeated path among the
      files. */
  lemma {:induction false} DirsDuplicates(files: seq<File>)
    requires HasDuplicatePaths(Dirs(files))
    ensures HasDuplicatePaths(files)
  {
    forall f
      ensures multiset(Dirs(files))[f] <= multiset(files)[f]
    {
      DirsCount(files, f);
    }
    DuplicatesInclusion(Dirs(files), files);
  }

  /** The entries of `fileByPath` that are directories. */
  function DirectoriesOf(fileByPath: map<string, File>): map<string, File>
  {
    map p | p in fileByPath && fileByPath[p].isDir :: fileByPath[p]
  }

  /** The folder index built from the directories of `files` is the
      directory part of the file index. */
  lemma {:induction false} FolderIndex(fileByPath: map<string, File>, folderByPath: map<string, File>, files: seq<File>)
    requires !HasDuplicatePaths(files)
    requires IndexOf(fileByPath, files)
    requires IndexOf(folderByPath, Dirs(files))
    ensures folderByPath == DirectoriesOf(fileByPath)
  {
    DirsMembers(files);
    var dirs := DirectoriesOf(fileByPath);
    forall p | p in dirs
      ensures p in folderByPath
    {
      DirectoryIndexed(fileByPath, folderByPath, files, p);
    }
    forall p | p in folderByPath
      ensures p in dirs && folderByPath[p] == dirs[p]
    {
      var f := folderByPath[p];
      assert f in files && f.path == p;
      assert p in Paths(files);
      SamePathSameFile(files, f, fileByPath[p]);
    }
  }

  lemma {:induction false} DirectoryIndexed(fileByPath: map<string, File>, folderByPath: map<string, File>, files: seq<File>, p: string)
    requires IndexOf(fileByPath, files)
    requires IndexOf(folderByPath, Dirs(files))
    requires p in fileByPath && fileByPath[p].isDir
    ensures p in folderByPath
  {
    var f := fileByPath[p];
    DirsMembers(files);
    assert f in Dirs(files);
    assert p in Paths(Dirs(files));
  }

  /** The result of a walk: the file index, the folder index and the
      rulesets, each keyed by path. */
  datatype Snapshot = Snapshot(fileByPath: map<string, File>, folderByPath: map<string, File>, rulesets: map<string, Ruleset>)

  /** `GetFileByPathAndFolderByPathAndGitIgnoreByPathForPath`: walk, filter
      by the rulesets the walk found, and index the files and the folders.
      It fails when the walk fails or two kept files share a path; otherwise
      the folder index is the directory part of the file index. */
  method GetFileByPathAndFolderByPathAndGitIgnoreByPathForPath(
    entries: seq<Entry>, stat: string -> Option<FileInfo>, compile: string -> Option<Ruleset>, matches: (Ruleset, string) -> bool)
    returns (r: Result<Snapshot, Error>)
    ensures var w := Visited(entries, stat, compile);
      && (r.Failure? <==> (w.stopped.Some? && w.stopped.value != SkipDir) || HasDuplicatePaths(Kept(w.files, w.rulesets, matches)))
      && (r.Success? ==> IndexOf(r.value.fileByPath, Kept(w.files, w.rulesets, matches)))
      && (r.Success? ==> r.value.folderByPath == DirectoriesOf(r.value.fileByPath))
      && (r.Success? ==> r.value.rulesets == w.rulesets)
  {
    var walked := GetFilesAndGitIgnoreByPath(entries, stat, compile);
    if walked.Failure? {
      return Failure(walked.error);
    }
    var (allFiles, rulesets) := walked.value;
    ghost var kept := Kept(allFiles, rulesets, matches);
    var files := FilterFiles(allFiles, rulesets, matches);
    var folders := FilterFolders(files);
    var indexed := GetFileByPathFromFiles(files);
    if indexed.Failure? {
      DuplicatesInclusion(files, kept);
      return Failure(indexed.error);
    }
    if HasDuplicatePaths(kept) {
      DuplicatesInclusion(kept, files);
    }
    var folderIndexed := GetFileByPathFromFiles(folders);
    if folderIndexed.Failure? {
      // cannot happen: a repeated folder path is a repeated file path
      DirsDuplicates(files);
      assert false;
    }
    IndexOfPermutation(indexed.value, files, kept);
    FolderIndex(indexed.value, folderIndexed.value, files);
    return Success(Snapshot(indexed.value, folderIndexed.value, rulesets));
  }
}
