/** Failure-carrying values shared by every module of the model. */
module Wrappers {

  /** A value that may be missing: the model's stand-in for `undefined` and `null`. */
  datatype Option<+T> = None | Some(value: T)

  /** The outcome of an operation that can fail with an error of type E. */
  datatype Result<+T, +E> = Success(value: T) | Failure(error: E)
}
