/** Failure-compatible wrappers used across the model: Go's `(T, error)`
    results become `Result`, and nil-able values become `Option`. */
module Wrappers {

  datatype Option<+T> = None | Some(value: T)

  datatype Result<+T, +E> = Success(value: T) | Failure(error: E) {
    predicate IsFailure() { Failure? }

    function PropagateFailure<U>(): Result<U, E>
      requires Failure?
    {
      Failure(error)
    }

    function Extract(): T
      requires Success?
    {
      value
    }
  }
}

/** The error values the syncer core can produce or pass along. */
module Errors {

  datatype Error =
    | SkipDir                    // the traversal library's "skip this directory" sentinel
    | StatFailed(path: string)   // `os.Stat` could not describe the path
    | DuplicatePath(path: string)
    | AbsFailed(name: string)    // `filepath.Abs` could not absolutize the name
    | WatcherNil                 // an event arrived while no watcher was attached
}
