/** Failure-carrying result types shared by the pixel modules. */
module Wrappers {

  /** A value that may be absent; `None` plays the role of a Java `null` return. */
  datatype Option<+T> = None | Some(value: T)

  /** The outcome of an operation that can raise an exception. */
  datatype Result<+T, +E> = Success(value: T) | Failure(error: E)
}
