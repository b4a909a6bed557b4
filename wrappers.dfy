/** Option and Result values shared by the other modules. */
module Wrappers {

  /** A value that may be absent (Python's None). */
  datatype Option<+T> = None | Some(value: T)

  /** The outcome of an operation that may raise: a value or the text of the error. */
  datatype Result<+R, +E> = Success(value: R) | Failure(error: E)
}
