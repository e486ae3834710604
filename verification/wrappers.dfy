/** Failure-carrying datatypes shared by the whole model. */
module Wrappers {

  /** A value that may be absent, like Rust's `Option`. */
  datatype Option<+T> = None | Some(value: T)

  /** A value or an error, like Rust's `Result`. */
  datatype Result<+T, +E> = Success(value: T) | Failure(error: E)
}
