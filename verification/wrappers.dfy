/** Failure-carrying result types shared by every module of the model. */
module Wrappers {

  /** A value that may be absent: Python's `None` or a raised parse error. */
  datatype Option<+T> = None | Some(value: T) {

    /** The carried value, or `default` when there is none. */
    function GetOr(default: T): T {
      match this
      case Some(v) => v
      case None => default
    }
  }

  /** The outcome of an operation that either returns a value or raises. */
  datatype Result<+R, +E> = Success(value: R) | Failure(error: E)
}
