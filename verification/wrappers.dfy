/** Failure-compatible wrappers: `Option` stands for a value that may be missing
    (a pandas NaN cell, a Python `None`), `Result` for a computation that may
    raise. */
module Wrappers {

  datatype Option<+T> = None | Some(value: T) {

    /** The wrapped value, or `default` when there is none. */
    function GetOr(default: T): T {
      match this
      case Some(v) => v
      case None => default
    }
  }

  datatype Result<+T, +E> = Success(value: T) | Failure(error: E)
}
