/** Failure-carrying result types used in place of Python's None returns and exceptions. */
module Wrappers {

  /** A value that may be absent, as `None` is used in the source. */
  datatype Option<+T> = None | Some(value: T)

  /** The result of an operation that either returns a value or raises. */
  datatype Result<+R, +E> = Ok(value: R) | Err(error: E)

  /** The result of an operation that returns nothing or raises. */
  datatype Outcome<+E> = Pass | Fail(error: E)
}
