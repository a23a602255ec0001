/** Option and Result values, standing for Python's `None` and raised exceptions. */
module Wrappers {

  datatype Option<+T> = None | Some(value: T)

  datatype Result<+R, +E> = Success(value: R) | Failure(error: E)

  /** A check that either passes or carries the error it raises. */
  datatype Outcome<+E> = Pass | Fail(error: E)
}
