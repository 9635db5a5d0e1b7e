/** Failure-carrying values used throughout the model. */
module Wrappers {

  /** A value that may be absent: a missing annotation, or a parser that rejected its input. */
  datatype Option<+T> = None | Some(value: T)

  /** The outcome of a call into the cluster API that may fail with an error message. */
  datatype Result<+T, +E> = Success(value: T) | Failure(error: E)
}
