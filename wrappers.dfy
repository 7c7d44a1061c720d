/** Failure-carrying values shared by the roster model. */
module Wrappers {

  /** A value that may be absent (Java's `Optional`). */
  datatype Option<+T> = None | Some(value: T)

  /** The only exception the roster classes throw themselves. */
  datatype Error = IllegalArgument

  /** Outcome of a constructor that validates its arguments: the new object, or the exception. */
  datatype Result<+T> = Ok(value: T) | Err(error: Error)

  /** Outcome of a validating setter, which returns nothing when it succeeds. */
  datatype Outcome = Pass | Fail(error: Error)
}
