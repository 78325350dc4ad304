/** The optional value that stands for Python's `None`. */
module Wrappers {

  datatype Option<+T> = None | Some(value: T)

  /** Success with a value, or the error that the source raises or returns. */
  datatype Result<+R, +E> = Success(value: R) | Failure(error: E)
}
