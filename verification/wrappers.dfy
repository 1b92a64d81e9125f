/** Failure-compatible wrappers used throughout the model. */
module Wrappers {

  /** An optional value: Go's nil pointer (`None`) or a pointer to a value (`Some`). */
  datatype Option<+T> = None | Some(value: T)

  /** A value or an error, for Go functions that return `(T, error)` with exactly one of them set. */
  datatype Result<+R, +E> = Success(value: R) | Failure(error: E)
}
