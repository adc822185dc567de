/** Failure-carrying results, standing in for Java's null and for checked exceptions. */
module Wrappers {

  /** A value that may be absent (a Java reference that may be null). */
  datatype Option<+T> = None | Some(value: T)

  /** The value of a call that either returns normally or throws; the error carries the message. */
  datatype Result<+T> = Success(value: T) | Failure(error: string)
}
