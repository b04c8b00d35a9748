/** Failure-carrying wrappers used in place of Java's `null` and of thrown exceptions. */
module Wrappers {

  /** A nullable reference: `None` plays the role of Java's `null`. */
  datatype Option<T> = None | Some(value: T)

  /** The outcome of an operation that may throw: `Failure` carries the exception. */
  datatype Result<T, E> = Success(value: T) | Failure(error: E)
}
