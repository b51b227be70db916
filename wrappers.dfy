/** Failure-carrying results shared by the model's modules. */
module Wrappers {

  /** The value of an operation that either succeeds or raises an error. */
  datatype Result<+T, +E> = Success(value: T) | Failure(error: E)

  /** The outcome of an operation whose effects are carried elsewhere. */
  datatype Outcome<+E> = Pass | Fail(error: E)
}
