/** Failure-compatible wrappers used throughout the model. */
module Wrappers {

  /** A value that may be absent: a `null` row, a failed lookup. */
  datatype Option<+T> = None | Some(value: T)

  /** The outcome of an operation that either returns a value or throws. */
  datatype Result<+T, +E> = Ok(value: T) | Err(error: E)
}
