/** Option and result types used throughout the model. */
module Wrappers {

  datatype Option<+T> = None | Some(value: T)

  /** The outcome of an operation that either yields a value or fails with an error. */
  datatype Result<+T, +E> = Success(value: T) | Failure(error: E)

  /** The outcome of a check that yields nothing beyond passing or failing. */
  datatype Outcome<+E> = Pass | Fail(error: E)
}
