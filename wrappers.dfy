/** Failure-carrying values shared by the other modules. */
module Wrappers {

  /** A value that may be absent: used where the source would raise on exhausted input. */
  datatype Option<+T> = None | Some(value: T)

  /** Either a value or the text of the exception the source would raise. */
  datatype Result<+R, +E> = Success(value: R) | Failure(error: E)
}
