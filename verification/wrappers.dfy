/** Failure-compatible wrappers shared by every module of the model. */
module Wrappers {

  /** Rust's `Option<T>` and Python's "value or None". */
  datatype Option<+T> = None | Some(value: T)

  /** Rust's `Result<T, E>`: a value, or the error that stopped the computation. */
  datatype Result<+T, +E> = Success(value: T) | Failure(error: E)
}
