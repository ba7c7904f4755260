/** Option and Result: the two failure-carrying shapes the model uses. */
module Wrappers {

  /** A value that may be missing (a null cell, a failed lenient parse). */
  datatype Option<+T> = None | Some(value: T)

  /** The outcome of an operation that can abort with an error. */
  datatype Result<+R, +E> = Success(value: R) | Failure(error: E)
}
