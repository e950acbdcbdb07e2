/** Option and Result values standing for Python's None and for raised exceptions. */
module Wrappers {

  datatype Option<+T> = None | Some(value: T)

  datatype Result<+R, +E> = Success(value: R) | Failure(error: E)

  /** A step that either completes or raises, without a value. */
  datatype Outcome<+E> = Pass | Fail(error: E)
}
