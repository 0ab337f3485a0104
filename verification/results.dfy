/** The errors the merge can raise, and a failure-compatible result type. */
module Results {
  import opened Paths

  /** The exceptions that escape the merge, one constructor per cause. */
  datatype Error =
    /** EEXIST from `os.mkdir`/`os.symlink`: something is already there. */
    | AlreadyExists(path: Path)
    /** ENOENT or ENOTDIR: the containing directory is missing or is not a directory. */
    | NotFound(path: Path)
    /** `os.remove` applied to a directory. */
    | IsADirectory(path: Path)
    /** `None` reached `os.path.join` or `os.path.basename` (a configuration
        key was missing). */
    | NotAString(key: string)
    /** Cloning into, or checking `ref` out in, the cache directory `dir` failed. */
    | FetchFailed(dir: string, ref: string)
    /** The path runs through a link to a directory of a fetched tree, so
        the operation would read or write that tree rather than the merge
        root; the model stops there. */
    | ThroughLink(path: Path)

  datatype Result<+T> = Ok(value: T) | Err(error: Error) {
    predicate IsFailure() {
      Err?
    }

    function PropagateFailure<U>(): Result<U>
      requires Err?
    {
      Err(error)
    }

    function Extract(): T
      requires Ok?
    {
      value
    }
  }

  datatype Option<+T> = None | Some(value: T) {
    function GetOr(default: T): T {
      match this
      case Some(v) => v
      case None => default
    }
  }
}
