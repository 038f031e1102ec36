/** Failure-carrying datatypes used for the source's null results and exceptions. */
module Wrappers {

  /** A lookup that may find nothing (the source's `null` from `Find`). */
  datatype Option<+T> = None | Some(value: T)

  /** An operation that either completes or stops with the exception the source would throw. */
  datatype Result<+T, +E> = Ok(value: T) | Err(error: E)
}
