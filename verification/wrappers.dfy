/** Option and Result, used by the link-header parser. */
module Wrappers {

  /** A value that may be absent (an HTTP header that was not sent). */
  datatype Option<+T> = None | Some(value: T)

  /** The outcome of an operation that can throw: a value or an error message. */
  datatype Result<+R, +E> = Success(value: R) | Failure(error: E)
}
