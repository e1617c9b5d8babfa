/** Option and Result, the failure-carrying datatypes the rest of the model uses. */
module Wrappers {

  /** A value that may be absent, as returned by the parsers. */
  datatype Option<+T> = None | Some(value: T)

  /** A success value or an error value; the model's stand-in for a thrown exception. */
  datatype Result<+R, +E> = Success(value: R) | Failure(error: E)
}
