/** Failure-carrying return values used in place of the source's thrown errors. */
module Wrappers {

  /** A value that may be absent: the source's `null`/`undefined`. */
  datatype Option<+T> = None | Some(value: T)

  /** A result that is either a value or the error the source would throw. */
  datatype Result<+R, +E> = Success(value: R) | Failure(error: E)

  /** The outcome of an operation that returns nothing but may throw. */
  datatype Outcome<+E> = Pass | Fail(error: E)
}
