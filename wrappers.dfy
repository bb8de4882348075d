/** Option and Result, the two failure-carrying shapes the model uses. */
module Wrappers {

  datatype Option<+T> = None | Some(value: T)

  /** Success carries a value; Failure carries the exception the source would raise. */
  datatype Result<+R, +E> = Success(value: R) | Failure(error: E)

  /** Outcome of a statement that returns nothing but may raise. */
  datatype Outcome<+E> = Pass | Fail(error: E)
}
