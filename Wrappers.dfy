/** Failure-carrying result types shared by the modules of the model. */
module Wrappers {

  datatype Option<+T> = None | Some(value: T)

  /** A computed value or the error that stopped the computation. */
  datatype Result<+R, +E> = Success(value: R) | Failure(error: E)

  /** A check that either passes or reports an error (Go's `error`, nil meaning Pass). */
  datatype Outcome<+E> = Pass | Fail(error: E)
}
