/** The `File` record (pkg/syncer/file.go) and its constructors. Metadata
    comes from an `FileInfo` value; `os.Stat` is a parameter `stat` (None when
    the path cannot be described) and `time.Now()` a parameter `now`. */
module Files {
  import opened Wrappers
  import opened Errors
  import opened Strings

  /** `fs.FileMode`. */
  type FileMode = bv32

  /** `fs.ModeSymlink`, bit 27 of io/fs's mode word. */
  const ModeSymlink: FileMode := 1 << 27

  /** `fs.ModeIrregular`, bit 19: the mode of a file whose kind is unknown. */
  const ModeIrregular: FileMode := 1 << 19

  /** The zero value of the `[16]byte` content digest; nothing fills it in. */
  const ZeroSum: seq<bv8> := [0, 0, 0, 0, 0, 0, 0, 0, 0, 0, 0, 0, 0, 0, 0, 0]

  /** A point-in-time description of one path. `modified` is a timestamp. */
  datatype File = File(
    name: string,
    path: string,
    parentPath: string,
    hasInfo: bool,
    size: int,
    modified: int,
    mode: FileMode,
    isDir: bool,
    isSymlink: bool,
    sum: seq<bv8>)

  /** What the traversal or `os.Stat` reports about a path (`fs.FileInfo`). */
  datatype FileInfo = FileInfo(name: string, size: int, modTime: int, mode: FileMode, isDir: bool)

  /** The parent path stored in a `File`: the directory part of `Split`, with
      every trailing '/' trimmed. */
  function ParentPath(path: string): (p: string)
    ensures HasPrefix(path, p)
    ensures p == [] || p[|p| - 1] != '/'
  {
    TrimRight(Split(path).0, '/')
  }

  /** The name `Split` yields: the text after the last '/'. */
  function BaseName(path: string): (name: string)
    ensures '/' !in name
    ensures |name| <= |path| && path[|path| - |name|..] == name
    ensures |name| < |path| ==> path[|path| - |name| - 1] == '/'
  {
    var split := Split(path);
    assert path[|split.0|..] == split.1;
    split.1
  }

  lemma TrimRightSnoc(s: string, c: char)
    ensures TrimRight(s + [c], c) == TrimRight(s, c)
  {
    assert (s + [c])[..|s|] == s;
  }

  /** The parent of `dir/name` is `dir` when `dir` has no trailing '/' and
      `name` no '/' at all: for instance the parent of "/a" is "". */
  lemma ParentPathOfChild(dir: string, name: string)
    requires dir == [] || dir[|dir| - 1] != '/'
    requires '/' !in name
    ensures ParentPath(dir + "/" + name) == dir
    ensures BaseName(dir + "/" + name) == name
  {
    var path := dir + "/" + name;
    assert (dir + "/") + name == path;
    SplitUnique(path, dir + "/", name);
    TrimRightSnoc(dir, '/');
  }

  /** The mode bits mark a symbolic link. */
  predicate IsSymlinkMode(mode: FileMode)
  {
    mode & ModeSymlink == ModeSymlink
  }

  /** `GetFileWithInfo`: build a record from `info`, or from `stat(path)`
      when no info is given; fails only when it must stat and cannot. */
  function GetFileWithInfo(path: string, info: Option<FileInfo>, stat: string -> Option<FileInfo>): (r: Result<File, Error>)
    ensures info.Some? ==> r.Success?
    ensures r.Failure? <==> info.None? && stat(path).None?
    ensures r.Failure? ==> r.error == StatFailed(path)
    ensures r.Success? ==> Described(path, info, stat).Some? && DescribedBy(r.value, path, Described(path, info, stat).value)
  {
    match Described(path, info, stat)
    case None => Failure(StatFailed(path))
    case Some(i) =>
      Success(File(i.name, path, ParentPath(path), true, i.size, i.modTime, i.mode,
                   i.isDir, IsSymlinkMode(i.mode), ZeroSum))
  }

  /** The metadata `GetFileWithInfo` works from: the given info, else a stat. */
  function Described(path: string, info: Option<FileInfo>, stat: string -> Option<FileInfo>): Option<FileInfo>
  {
    if info.Some? then info else stat(path)
  }

  /** `f` is the record built for `path` from the metadata `i`. */
  predicate DescribedBy(f: File, path: string, i: FileInfo)
  {
      && f.hasInfo
      && f.path == path
      && f.parentPath == ParentPath(path)
      && f.name == i.name
      && f.size == i.size
      && f.modified == i.modTime
      && f.mode == i.mode
      && f.isDir == i.isDir
      && (f.isSymlink <==> IsSymlinkMode(i.mode))
      && f.sum == ZeroSum
  }

  /** `GetFileWithoutInfo`: the best-effort record of a path nothing is known
      about. */
  function GetFileWithoutInfo(path: string, now: int): (f: File)
    ensures !f.hasInfo && f.size == 0 && !f.isDir && !f.isSymlink
    ensures f.mode == ModeIrregular && f.sum == ZeroSum && f.modified == now
    ensures f.path == path && f.parentPath == ParentPath(path)
    ensures f.name == BaseName(path)
  {
    File(BaseName(path), path, ParentPath(path), false, 0, now, ModeIrregular, false, false, ZeroSum)
  }

  /** `GetFileWithOptionalInfo`: stat the path, falling back to the no-info
      record exactly when stat fails. */
  function GetFileWithOptionalInfo(path: string, now: int, stat: string -> Option<FileInfo>): (f: File)
    ensures f.hasInfo <==> stat(path).Some?
    ensures stat(path).None? ==> f == GetFileWithoutInfo(path, now)
    ensures stat(path).Some? ==> DescribedBy(f, path, stat(path).value)
    ensures f.path == path && f.parentPath == ParentPath(path)
  {
    match GetFileWithInfo(path, None, stat)
    case Success(f) => f
    case Failure(_) => GetFileWithoutInfo(path, now)
  }

  /** `fakeFileInfo{name, isDir: true}`: size 0, irregular mode, the current
      time, no system data. */
  function FakeFolderInfo(name: string, now: int): FileInfo
  {
    FileInfo(name, 0, now, ModeIrregular, true)
  }

  /** `GetFolderWithFakeInfo`: a directory record for a path that may no
      longer exist. */
  function GetFolderWithFakeInfo(path: string, now: int): (f: File)
    ensures f.isDir && f.hasInfo && !f.isSymlink
    ensures f.size == 0 && f.mode == ModeIrregular && f.modified == now
    ensures f.path == path && f.parentPath == ParentPath(path)
    ensures f.name == BaseName(path)
  {
    match GetFileWithInfo(path, Some(FakeFolderInfo(BaseName(path), now)), _ => None)
    case Success(f) => f
    case Failure(_) => GetFileWithoutInfo(path, now)
  }
}
