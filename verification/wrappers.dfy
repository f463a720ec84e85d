/** Option and Result datatypes used by the workout model. */
module Wrappers {

  /** A value that may be absent, as JavaScript's `undefined` result of a lookup. */
  datatype Option<+T> = None | Some(value: T)

  /** The outcome of an operation that either succeeds with a value or fails with an error. */
  datatype Result<+R, +E> = Success(value: R) | Failure(error: E)
}
