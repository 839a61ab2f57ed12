/** Failure-carrying results, in the shape of Rust's `Result` and `Option`. */
module Wrappers {

  /** The value of an operation that either succeeds with a `T` or fails with an `E`. */
  datatype Result<+T, +E> = Success(value: T) | Failure(error: E)

  /** An optional value. */
  datatype Option<+T> = None | Some(value: T)
}
