/** Failure-carrying datatypes shared by the crawler model. */
module Wrappers {

  /** A value that may be absent: Python's `None` versus a present value. */
  datatype Option<+T> = None | Some(value: T) {

    /** The carried value, or `default` when absent (Python's `x or default`). */
    function GetOr(default: T): T {
      match this
      case Some(v) => v
      case None => default
    }
  }

  /** The result of a step that can raise: the value, or the error that was raised. */
  datatype Result<+R, +E> = Success(value: R) | Failure(error: E)
}
