/** Failure-compatible wrappers used across the model: a Python `None`-able value
    and a success-or-error-message value. */
module Wrappers {

  datatype Option<+T> = None | Some(value: T) {
    /** The value, or `default` when absent. */
    function GetOr(default: T): T {
      match this
      case Some(v) => v
      case None => default
    }
  }

  /** A detector either produces its result or an error value in the same slot. */
  datatype Result<+R, +E> = Success(value: R) | Failure(error: E)
}
