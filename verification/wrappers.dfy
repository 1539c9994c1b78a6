/** Failure-compatible wrappers used across the model. */
module Wrappers {

  /** A value that may be absent: the model's rendering of Python's `None`. */
  datatype Option<+T> = None | Some(value: T)

  /** A value, or the error that was raised in its place. */
  datatype Result<+T, +E> = Success(value: T) | Failure(error: E)
}
