/** Failure-carrying datatypes shared by the other modules. */
module Wrappers {

  /** A value that may be absent: JavaScript's `null` / empty-string cases. */
  datatype Option<+T> = None | Some(value: T)

  /** The outcome of an operation that can reject its input. */
  datatype Result<+R, +E> = Success(value: R) | Failure(error: E)
}
