/** Failure-carrying values used in place of Java's null and exceptions. */
module Wrappers {

  /** A value that may be absent: Java's null reference or an empty Optional. */
  datatype Option<+T> = None | Some(value: T)

  /** The value of a call that either returns normally or throws. */
  datatype Result<+T, +E> = Success(value: T) | Failure(error: E)

  /** The outcome of a void call that either returns normally or throws. */
  datatype Outcome<+E> = Pass | Fail(error: E)
}
