/** Failure-carrying values shared by every module of the model. */
module Wrappers {

  /** A value that may be absent: Python's `None` return. */
  datatype Option<+T> = None | Some(value: T)

  /** A value or the exception that the Python code would raise instead. */
  datatype Result<+R, +E> = Success(value: R) | Failure(error: E)
}
