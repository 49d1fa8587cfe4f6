/** Events (pkg/syncer/event.go) and the raw notifications they are made
    from. */
module Events {
  import opened Wrappers

  /** `Operation`: the normalized kind of change. */
  datatype Operation = Created | Modified | Moved | Deleted | Unknown

  /** `Event`: `path` and `parentPath` are filled in when it is handled. */
  datatype Event = Event(operation: Operation, name: string, path: string, parentPath: string)

  /** The four notification bits the watcher subscribes to. */
  datatype Kind = Create | Remove | Write | Rename

  /** A raw notification (`notify.EventInfo`): the bits set in its event
      mask, the path it reports, and the sequence id from its `Sys()` data,
      which only some platforms provide. */
  datatype FsEvent = FsEvent(kinds: set<Kind>, path: string, id: Option<nat>)
}
