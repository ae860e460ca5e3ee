/** Failure-carrying values shared by the whole model. */
module Wrappers {

  /** A value that may be absent: a nullable `DateTime?`, a lookup that found nothing. */
  datatype Option<+T> = None | Some(value: T)

  /** The outcome of an operation that can throw: its value, or the error it raised. */
  datatype Result<+R, +E> = Success(value: R) | Failure(error: E)
}
