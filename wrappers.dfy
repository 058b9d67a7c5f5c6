/** Failure-compatible wrappers used across the model: an optional value, a
    value-or-error, and a pass-or-error outcome (the model's stand-in for a
    Python exception). */
module Wrappers {
  datatype Option<+T> = None | Some(value: T)

  datatype Result<+T, +E> = Success(value: T) | Failure(error: E)

  datatype Outcome<+E> = Pass | Fail(error: E)
}
