/** Failure-carrying result types used in place of Python's exceptions. */
module Wrappers {

  datatype Option<+T> = None | Some(value: T)

  /** The value an operation returns, or the exception it raises. */
  datatype Result<+T, +E> = Success(value: T) | Failure(error: E)

  /** The outcome of an operation that returns nothing (Python's `None`) or raises. */
  datatype Outcome<+E> = Pass | Fail(error: E)
}
