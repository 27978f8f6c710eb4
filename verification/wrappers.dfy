/** Rust's `Option` and an abort-or-value result, used throughout the model. */
module Wrappers {

  /** An optional value: the model of Rust's `Option<T>`. */
  datatype Option<+T> = None | Some(value: T)

  /** Either a value or an error: the model of a call that may abort. */
  datatype Result<+T, +E> = Success(value: T) | Failure(error: E)
}
