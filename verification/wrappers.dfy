/** Failure-compatible wrappers used across the model: an optional value, a value-or-error,
    and a pass-or-error outcome for operations that return nothing. */
module Wrappers {

  datatype Option<+T> = None | Some(value: T) {
    /** The value inside `Some`, or `default` for `None` (JavaScript's `x || default`). */
    function GetOr(default: T): T {
      match this
      case Some(v) => v
      case None => default
    }
  }

  datatype Result<+R, +E> = Success(value: R) | Failure(error: E)

  datatype Outcome<+E> = Pass | Fail(error: E)
}
