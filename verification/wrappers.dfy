/**
 * Result types for the error outcomes of the operations below: an optional
 * value, a value or an error, and a state change that happens or is refused.
 */
module Wrappers {

  datatype Option<+T> = None | Some(value: T)

  /** A computation that either yields a value or stops with an error. */
  datatype Result<+T, +E> = Success(value: T) | Failure(error: E)

  /** A state change that either happens or is refused with an error. */
  datatype Outcome<+E> = Pass | Fail(error: E)
}
