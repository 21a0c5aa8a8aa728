/** Failure-carrying wrappers shared by the other modules. */
module Wrappers {

  /** A value that may be missing; `None` plays the part of a C null pointer. */
  datatype Option<+T> = None | Some(value: T)

  /** Either a value or the reason there is none. */
  datatype Result<+T, +E> = Success(value: T) | Failure(error: E)
}
