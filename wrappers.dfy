/** Option and Result, the two failure-carrying values the model needs. */
module Wrappers {

  datatype Option<+T> = None | Some(value: T)

  /** The outcome of an operation that the Java code may abort with an exception. */
  datatype Result<+T, +E> = Success(value: T) | Failure(error: E)
}
