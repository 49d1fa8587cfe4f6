# syncer change detection, modelled in Dafny

`syncer` watches a directory tree and keeps an authoritative snapshot: a
map from path to `File` record. Filesystem notifications are buffered by
the watcher. On each tick, once the buffer has been quiet for the debounce
interval, the notifications are sorted by sequence id and handed to the
handler one at a time. The handler re-walks the affected part of the tree
and merges the result into its maps, with the semantics of a creation, a
modification or a deletion. After the batch, the differ compares the new
snapshot with the previous one.

This project models that core:

- File records and their constructors (`Files`).
- The static folder and file ignore patterns (`IgnorePatterns`).
- The walk's per-entry decisions, the git-ignore filter and the path index
  (`Walker`).
- The differ (`Differs`).
- The handler and its merges (`Handlers`).
- The watcher's buffer and tick step (`Watchers`).
- Two small helpers (`Helpers`, `Utils`).

Shared modules:

- `Strings` holds the parts of Go's `strings` and `path/filepath` the code
  uses. It includes the byte length of UTF-8 text, for Go's `len`.
- `Sorting` models `sort.SliceStable` as a stable insertion sort, both as a
  function and in place on an array.

Differ, Handler and Watcher are classes whose methods reassign their map and
sequence fields. Each method's postcondition ties the new state to a
function of the old state, and the lemmas beside those functions state what
the merges, the dispatch and the flush do.

Things outside the program are parameters:

- The filesystem walk and `os.Stat`.
- `filepath.Abs`.
- The clock, as an integer timestamp with 0 for Go's zero time.
- The `.gitignore` engine, as an opaque `Ruleset` type. Compiling and
  matching are the functions `compile` and `matches`.

Inside a handler, a walk is the function `Env.walk`, which returns
`Option<Snapshot>`.

Found while modelling; the model keeps each behaviour as written:

- Handler merges test plain string prefixes. So deleting `/r/a` also
  removes `/r/ab` (`Handlers.DeletedMergeIsStringPrefix`).
- On Deleted, `handleGitIgnoreByPath` deletes the covered ruleset keys from
  the file map, not from the ruleset map (`Handlers.RulesetMerge`).
- `handleEvent` never calls `update`. Modified, and a move inside the root,
  re-walk the parent folder by remove-then-add (`Handlers.DispatchCases`).
- The `.` in the ignored folder names and suffixes is a regular-expression
  wildcard, so `/src/xgit` counts as an ignored folder
  (`IgnorePatterns.DotIsWildcard`).
- `lastFsEvent` is never reset after a flush.

## Model

| member | source | states |
|---|---|---|
| Files.ParentPath | pkg/syncer/file.go:37-42 | the parent path is a prefix of the path and never ends in '/' |
| Files.BaseName | pkg/syncer/file.go:55 | the name is the suffix of the path after its last '/' and holds no '/' |
| Files.ParentPathOfChild | pkg/syncer/file.go:37-42 | `dir + "/" + name` has parent `dir` and name `name`, so "/a" has parent "" |
| Strings.Split | pkg/syncer/file.go:37 | `filepath.Split` yields a directory part ending in '/' (or empty) and a slash-free file part that concatenate to the path |
| Strings.SplitUnique | pkg/syncer/file.go:37 | those three properties determine the split |
| Files.GetFileWithInfo | pkg/syncer/file.go:24-52 | given info it never fails; it fails exactly when it must stat and stat fails; on success the record takes name, size, time and mode from the info, has `hasInfo`, and is a symlink iff the mode's symlink bit is set |
| Files.GetFileWithoutInfo | pkg/syncer/file.go:54-69 | no info, size 0, not a directory, not a symlink, irregular mode, zero sum, the given time, and the path's own name and parent |
| Files.GetFileWithOptionalInfo | pkg/syncer/file.go:71-78 | falls back to the no-info record exactly when stat fails; otherwise the record is the one stat's info describes |
| Files.GetFolderWithFakeInfo | pkg/syncer/file.go:80-92 | a directory with info, size 0, irregular mode, the current time and the last path segment as its name (the constants of pkg/syncer/fake_file_info.go:13-31) |
| IgnorePatterns.BuildExpression | pkg/syncer/constants.go:44-51 | appending each alternative with '\|' and then trimming '\|' yields the alternatives joined by '\|' |
| IgnorePatterns.FolderIgnoreExpression | pkg/syncer/constants.go:44-51 | the folder expression is the join of `(.*(/\|^)NAME(/\|$).*)` over the listed names |
| IgnorePatterns.FileIgnoreExpression | pkg/syncer/constants.go:69-76 | the file expression is the join of `(.*\w+SUFFIX$)` over the listed suffixes |
| IgnorePatterns.InitExpressions | pkg/syncer/constants.go:44-77 | `init` builds the folder expression from the folder list and the file expression from the suffix list |
| IgnorePatterns.FolderIgnored | pkg/syncer/walker.go:34 | the meaning of `folderIgnoreExp.MatchString`: some listed folder name is a whole '/'-delimited segment of the path |
| IgnorePatterns.FileIgnored | pkg/syncer/walker.go:39 | the meaning of `fileIgnoreExp.MatchString`: the path ends with a word character and a listed suffix |
| IgnorePatterns.ListedSegmentIgnored | pkg/syncer/constants.go:44-52 | a listed name standing as a whole '/'-delimited segment of a path makes the folder pattern match |
| IgnorePatterns.FolderIgnoredExtends | pkg/syncer/constants.go:46-52 | if the folder pattern matches `p`, it matches `p + "/" + q`: nothing below an ignored folder escapes |
| IgnorePatterns.NodeModulesIgnored | pkg/syncer/constants.go:54-67 | every path with a `node_modules` segment is ignored |
| IgnorePatterns.InitFolderTestValuesMatchRoot | pkg/syncer/constants.go:54-67 | "/node_modules" and "/node_modules/" match the folder pattern |
| IgnorePatterns.InitFolderTestValuesMatchRootChild | pkg/syncer/constants.go:54-67 | "/node_modules/something" with and without a trailing '/' match |
| IgnorePatterns.InitFolderTestValuesMatchNested | pkg/syncer/constants.go:54-67 | "/something/node_modules" with and without a trailing '/' match |
| IgnorePatterns.InitFolderTestValuesMatchNestedChild | pkg/syncer/constants.go:54-67 | "/something/node_modules/something" with and without a trailing '/' match |
| IgnorePatterns.ListedSuffixIgnored | pkg/syncer/constants.go:69-77 | a path ending in a word character followed by a listed suffix matches the file pattern |
| IgnorePatterns.InitFileTestValuesMatch | pkg/syncer/constants.go:79-87 | the three `some_file.pyc` test values match the file pattern |
| IgnorePatterns.BareSuffixNotIgnored | pkg/syncer/constants.go:72 | "/.pyc" and ".tmp" do not match the file pattern: the suffix needs a word character before it |
| IgnorePatterns.DotIsWildcard | pkg/syncer/constants.go:44-77 | the unescaped '.' matches any character: "/src/xgit" counts as an ignored folder, "/src/copyc" as an ignored file |
| Utils.LeftPad | internal/utils/helpers.go:26-38 | the loop builds `LeftPadded`: the value alone when it is longer than `length` bytes, else the pad repeated `length - len(value)` times before it |
| Utils.LeftPaddedShape | internal/utils/helpers.go:26-38 | the result ends with the value; with a one-byte pad its byte length is the larger of `length` and the value's length |
| Utils.LeftPaddedUnchanged | internal/utils/helpers.go:27-33 | a value at least `length` bytes long (or an empty pad) comes back unchanged |
| Utils.Utf8LenRepeat | internal/utils/helpers.go:33-35 | n copies of a text have n times its byte length |
| Helpers.SortFilesInPlace | pkg/syncer/helpers.go:5-12 | the array afterwards holds the stable sort by path of what it held before |
| Helpers.SortedByPath | pkg/syncer/helpers.go:5-12 | that sort is a permutation, ascending by path, and keeps the relative order of incomparable files |
| Helpers.SortKeepsOrderOfEqualPaths | pkg/syncer/helpers.go:6 | files sharing a path keep their relative order |
| Helpers.PathIncomparable | pkg/syncer/helpers.go:9 | two files are incomparable under the path order iff their paths are equal |
| Helpers.CopyFileByPath | pkg/syncer/helpers.go:14-22 | the copy has the same keys mapped to the same records |
| Sorting.StableSortInPlace | pkg/syncer/watcher.go:119-144 | the in-place insertion sort leaves `SortedBy` of the old contents, for any comparator |
| Sorting.SortedByStable | pkg/syncer/helpers.go:6 | under a strict weak order, the sort keeps the order of the elements equivalent to any given one |
| Differs.Differ.constructor | pkg/syncer/differ.go:15-22 | both snapshots start empty |
| Differs.Differ.Update | pkg/syncer/differ.go:24-53 | a snapshot equal to `current` changes nothing; a different one moves `current` to `previous` and becomes `current` |
| Differs.Differ.Diff | pkg/syncer/differ.go:55-84 | the three maps are the paths only in `current`, the paths only in `previous`, and the common paths whose time or size differ, each with its value; the snapshots are left alone |
| Differs.Differ.CurrentPaths | pkg/syncer/differ.go:63-75 | a current path is added iff the previous snapshot lacks it, and modified iff it is there with a different time or size; each maps to its current record |
| Differs.Differ.PreviousPaths | pkg/syncer/differ.go:77-84 | a previous path is removed iff the current snapshot lacks it, mapping to its previous record |
| Differs.DiffPartitions | pkg/syncer/differ.go:63-84 | the three maps are pairwise disjoint, and a path of either snapshot falls in one of them or is unchanged in time and size |
| Differs.DiffOfSame | pkg/syncer/differ.go:63-84 | diffing a snapshot against itself reports nothing |
| Differs.DiffIgnoresOtherFields | pkg/syncer/differ.go:66 | changes to anything but time and size are reported nowhere |
| Differs.FreshDiff | pkg/syncer/differ.go:15-84 | a new differ's diff is three empty maps |
| Differs.UpdateTwiceThenDiff | pkg/syncer/differ.go:24-84 | after two different updates, the diff compares the second snapshot with the first |
| Walker.IsGitIgnored | pkg/syncer/walker.go:115-128 | a path counts as ignored iff some ruleset keyed by a string prefix of the path matches it |
| Walker.FilterFiles | pkg/syncer/walker.go:103-143 | the result is a permutation of the input files that are not ignored |
| Walker.FilterFilesMeaning | pkg/syncer/walker.go:103-143 | each file is kept as often as it occurs iff it is not ignored; with no rulesets the result is a permutation of the whole input |
| Walker.FilterFolders | pkg/syncer/walker.go:145-157 | the result is the directory entries, in order |
| Walker.DirsMembers | pkg/syncer/walker.go:148-154 | a file is in the result iff it is an input directory |
| Walker.DirsCount | pkg/syncer/walker.go:148-154 | each directory occurs as often as in the input, and nothing else occurs |
| Walker.GetFileByPathFromFiles | pkg/syncer/walker.go:159-172 | fails iff two inputs share a path, reporting a duplicate path; otherwise its keys are exactly the input paths and each maps to an input with that path |
| Walker.IndexUnique | pkg/syncer/walker.go:159-172 | without duplicates the index is unique |
| Walker.GetFilesFromFileByPath | pkg/syncer/walker.go:203-211 | one value per key, for distinct keys covering the map |
| Walker.VisitEntry | pkg/syncer/walker.go:25-89 | a walk error aborts; an ignored path is skipped; an admitted entry aborts with a stat error when it cannot be described, and is otherwise emitted as the record its info describes, carrying a ruleset iff it is a non-directory named `.gitignore` that compiles |
| Walker.GetFilesAndGitIgnoreByPath | pkg/syncer/walker.go:15-101 | the loop folds the entries: it fails iff the walk stopped with an error other than SkipDir, and otherwise yields the emitted files and the rulesets registered under their parent paths |
| Walker.VisitedFilesNotIgnored | pkg/syncer/walker.go:33-86 | no emitted file matches the folder or file pattern, and each comes from an entry with its path |
| Walker.VisitedEmitsAdmitted | pkg/syncer/walker.go:25-89 | when the walk does not stop, every admitted entry is emitted as the record its info describes |
| Walker.VisitedComplete | pkg/syncer/walker.go:25-89 | when the walk does not stop, every admitted entry is emitted as the record its info describes, and every compiled `.gitignore` registers a ruleset under its parent path |
| Walker.VisitedRulesets | pkg/syncer/walker.go:49-65 | every registered ruleset is the compiled `.gitignore` of some emitted file, keyed by that file's parent path |
| Walker.WalkErrorStops | pkg/syncer/walker.go:29-31 | the first walk error ends the fold with that error; later entries change nothing |
| Walker.FolderIndex | pkg/syncer/walker.go:185-198 | the folder index is the sub-map of the file index holding just the directories |
| Walker.GetFileByPathAndFolderByPathAndGitIgnoreByPathForPath | pkg/syncer/walker.go:174-201 | fails iff the walk fails or the kept files repeat a path; otherwise it yields the index of the kept files, its directory sub-map, and the walk's rulesets |
| Handlers.Handler.constructor | pkg/syncer/handler.go:23-32 | a new handler has the given root and differ, no watcher, and empty file and ruleset maps |
| Handlers.CommonPath | pkg/syncer/handler.go:35-42 | "" for an empty map; otherwise a key, of fewest bytes when "" is not a key |
| Handlers.Handler.HandleFileByPath | pkg/syncer/handler.go:34-107 | the file map becomes the Created, Modified or Deleted merge of the incoming map under the chosen common path; the rulesets stay |
| Handlers.CreatedMerge | pkg/syncer/handler.go:44-52 | every incoming entry is stored, no key is removed, other entries stay, and merging again changes nothing |
| Handlers.ModifiedMerge | pkg/syncer/handler.go:54-82 | below the common path exactly the incoming keys remain; incoming values win; keys neither incoming nor below the common path stay |
| Handlers.ModifiedMergeOfNothing | pkg/syncer/handler.go:54-82 | an empty incoming map has common path "" and changes nothing |
| Handlers.DeletedMerge | pkg/syncer/handler.go:84-104 | a key survives iff no incoming key is a string prefix of it; nothing is inserted and survivors keep their values |
| Handlers.DeletedMergeIsStringPrefix | pkg/syncer/handler.go:91 | deleting `dir` drops every key that merely starts with `dir`, such as a sibling "/r/ab" of "/r/a" |
| Handlers.Handler.HandleGitIgnoreByPath | pkg/syncer/handler.go:109-139 | the handler's maps become the ruleset merge of the incoming rulesets |
| Handlers.RulesetMerge | pkg/syncer/handler.go:110-136 | Created and Modified upsert the rulesets and leave the files; Deleted leaves the rulesets and removes from the file map the existing ruleset keys an incoming key prefixes |
| Handlers.Handler.Add | pkg/syncer/handler.go:141-181 | the maps become the Created merges of the walk's rulesets, then its files |
| Handlers.Handler.Update | pkg/syncer/handler.go:260-300 | the maps become the Modified merges of the walk's rulesets, then its files |
| Handlers.FailedWalkChangesNothing | pkg/syncer/handler.go:144-147 | when the walk fails, `add` changes nothing, and neither does `update` through its identical guard |
| Handlers.AddIdempotent | pkg/syncer/handler.go:141-167 | adding the same walk twice is adding it once |
| Handlers.Handler.Remove | pkg/syncer/handler.go:183-258 | the maps become the Deleted merges of the walk's rulesets and files, or of the synthetic folder when the walk fails |
| Handlers.Handler.AssumedFolder | pkg/syncer/handler.go:194-224 | the synthetic folder is kept exactly when the current rulesets do not ignore its path |
| Handlers.RemoveWithoutWalk | pkg/syncer/handler.go:193-236 | with a failed walk the rulesets stay and the file map loses the keys under the path, unless the path is ignored |
| Handlers.RemoveWithoutWalkMeaning | pkg/syncer/handler.go:193-236 | if not ignored, exactly the file keys prefixed by the path go and the rest keep their values; if ignored, nothing changes |
| Handlers.Handler.HandleEvent | pkg/syncer/handler.go:302-337 | a name without an absolute form is an error with no change; the event gets its absolute path and trimmed parent; without a watcher it is an error with no change; otherwise the maps become the dispatch |
| Handlers.DispatchCases | pkg/syncer/handler.go:323-334 | Created adds the path; Deleted removes it; Modified, or Moved with the parent under the root, removes then adds the parent; anything else changes nothing |
| Handlers.ModifiedEventStoresWalk | pkg/syncer/handler.go:331-334 | after a Modified event whose parent folder walks, every file of that walk is stored as walked |
| Handlers.Handler.UpdateDiffer | pkg/syncer/handler.go:339-346 | the differ is updated with the file map |
| Handlers.Handler.SetWatcher | pkg/syncer/handler.go:348-357 | the watcher is set, the whole tree is added, and the differ is updated |
| Watchers.Classify | pkg/syncer/watcher.go:64-77 | Create gives Created; else Remove gives Deleted; else Write gives Modified; else Rename gives Moved; no bit gives Unknown |
| Watchers.Watcher.constructor | pkg/syncer/watcher.go:28-49 | an empty buffer and the zero time; the handler gets its watcher, adds the tree and updates the differ |
| Watchers.Watcher.BufferFsEvent | pkg/syncer/watcher.go:51-59 | the notification goes at the end of the buffer, and `lastFsEvent` becomes the current time |
| Watchers.Watcher.HandleFsEvent | pkg/syncer/watcher.go:61-93 | the handler's maps become those the classified event's dispatch gives |
| Watchers.Watcher.HandleBufferedFsEvents | pkg/syncer/watcher.go:95-155 | at the zero time or inside the debounce window nothing changes; otherwise the buffer empties, the buffered notifications are handled in `IdLess` stable-sort order, and the differ is updated once iff there were any; `lastFsEvent` stays |
| Watchers.Watcher.HandleInOrder | pkg/syncer/watcher.go:146-148 | the notifications are handled one after another, in order |
| Watchers.FlushIsPermutation | pkg/syncer/watcher.go:119-148 | every buffered notification is handled exactly once |
| Watchers.FlushWithoutIds | pkg/syncer/watcher.go:128-130 | with no sequence ids the notifications are handled in arrival order |
| Watchers.FlushByIds | pkg/syncer/watcher.go:119-144 | when every notification has an id they are handled in ascending id order, and those sharing an id keep their arrival order |
| Watchers.FlushedConcat | pkg/syncer/watcher.go:146-148 | handling two batches in turn is handling their concatenation |

## Left out

- The traversal of `walk.Walk`, and its goroutines and `runtime.Gosched`. The walk is a flat list of entries. The walk ends, successfully, at the first SkipDir entry, and later entries are dropped. What `walk.Walk` prunes for a real SkipDir is not modelled.
- The order in which goroutines append: `FilterFiles` and the walk are specified up to permutation where the source's order depends on scheduling.
- The `.gitignore` engine (`ignore.CompileIgnoreFile`, `MatchesPath`), as the opaque `compile` and `matches` functions.
- Regular expressions in general: only the two generated patterns are modelled, as string predicates.
- The notify subscription, the run loop's `select`, the ticker, and `start`, `Close` and the started, stop and stopped channels (pkg/syncer/watcher.go:157-226). The error path of `start` in `GetWatcher` goes with them.
- Mutexes: the model is sequential.
- Paths that are not valid UTF-8. A Go string, like a Linux file name, may hold any bytes, but the model's paths are sequences of characters, so byte strings that decode to no text are not represented.
- `filepath.Abs` and `time.Now`, which are the `absolute` and `now` fields of `Env`. The walk oracle is taken as fixed while one batch is handled.
- Watchers.Watcher.HandleBufferedFsEvents: says nothing about the order when only some notifications carry a sequence id. That comparator is not a strict weak order. For up to 20 notifications, Go's stable sort is the insertion sort modelled here; for more it merges blocks, and this model does not follow that.
- The `h == nil` guard of `handleFsEvent`: the model's watcher always has a handler.
- The handler's `watcher` pointer, which is a boolean `hasWatcher`; only its nil test is used.
- Pointers and aliasing: `File` records are values. The copy in `CopyFileByPath` shares the same records, and changes to the original map cannot reach it.
- The `error` results of the handler's merge methods, which are always nil, and the early returns on them.
- Handlers.CommonPath: when "" is a key, it says only that the common path is a key, not which one Go's map order picks.
- `add`, `remove` and `update` take the walk from `Env.walk`; their model is not composed with the `Walker` model of the walk.
- `time.Time` is an integer timestamp, `fs.FileMode` a 32-bit word, and the `Sum` digest is always zero (nothing sets it).
- Logging, the debug counters of `diff` (pkg/syncer/differ.go:86-131), the debug listing in `update`, `DebugLog`, the `DEBUG` environment setup and `WaitForSigInt`.
- internal/args/args.go, the command-line parsing: it mixes flag handling with `os.Stat` and process exits. Its line 75 tests `RemotePath` where `RemoteHost` is evidently meant.
- cmd/syncer/main.go, cmd/walker/main.go and pkg/syncer/run.go, which only wire things together, and the test stub pkg/syncer/fake_event_info..go.
- The unused `watching` map of the watcher.
