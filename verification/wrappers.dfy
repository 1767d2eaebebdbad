/** The Option and Result datatypes used across the model. */
module Wrappers {

  /** A value that may be missing: the outcome of a parse that may fail. */
  datatype Option<+T> = None | Some(value: T)

  /** The outcome of a handler that either completes or throws. */
  datatype Result<+R, +E> = Success(value: R) | Failure(error: E)
}
