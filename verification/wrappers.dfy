/** Java's nullable references and thrown exceptions, as values. */
module Wrappers {

  /** A Java reference that may be null. */
  datatype Option<+T> = None | Some(value: T)

  /** A value, or the exception that was thrown instead of returning it. */
  datatype Result<+T, +E> = Success(value: T) | Failure(error: E)
}
