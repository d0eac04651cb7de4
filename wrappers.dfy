/** Failure-carrying values that stand in for the exceptions of the command line. */
module Wrappers {

  /** A value that may be missing (a failed TryParse, an unknown address). */
  datatype Option<+T> = None | Some(value: T)

  /** The outcome of a step that either produces a value or raises an error. */
  datatype Result<+R, +E> = Success(value: R) | Failure(error: E)

  /** The outcome of a check that produces nothing but may raise an error. */
  datatype Outcome<+E> = Pass | Fail(error: E)
}
