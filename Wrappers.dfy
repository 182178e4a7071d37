/** Optional values and error results used across the model. */
module Wrappers {

  /** A value that may be absent: stands for a nullable Java reference. */
  datatype Option<+T> = None | Some(value: T)

  /** The outcome of an operation that either succeeds with a value or fails. */
  datatype Result<+T, +E> = Success(value: T) | Failure(error: E)

  /** The outcome of an operation that produces no value. */
  datatype Outcome<+E> = Pass | Fail(error: E)
}
