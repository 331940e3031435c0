/** `Option` and `Result`, used across the pool model. */
module Wrappers {

  /** A value that may be absent; stands in for a Java reference that may be null. */
  datatype Option<+T> = None | Some(value: T)

  /** Either a value or the error that stopped its construction. */
  datatype Result<+T, +E> = Success(value: T) | Failure(error: E)
}
