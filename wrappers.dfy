/** Option and Result: JavaScript's `undefined` and thrown errors. */
module Wrappers {

  /** A value that may be absent (`undefined` in the source language). */
  datatype Option<+T> = None | Some(value: T)

  /** The outcome of an operation that can throw. */
  datatype Result<+T, +E> = Success(value: T) | Failure(error: E)
}
