/** Option and Result values standing in for Python's `None` and for raised exceptions. */
module Wrappers {

  /** A value that may be absent (Python `None`). */
  datatype Option<+T> = None | Some(value: T)

  /** Either a computed value or the exception that the source would raise instead. */
  datatype Result<+T, +E> = Success(value: T) | Failure(error: E)
}
