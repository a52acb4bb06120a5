/** Failure-carrying datatypes used across the model. */
module Wrappers {

  /** A value that may be absent (an unset field, a search that found nothing). */
  datatype Option<+T> = None | Some(value: T)

  /** The outcome of an operation that either succeeds with a value or fails with an error. */
  datatype Result<+T, +E> = Ok(value: T) | Err(error: E)
}
