/** Failure-compatible helper datatypes used throughout the model: `Option`
    stands in for a Java reference that may be null, `Result` for an
    operation that may throw. */
module Wrappers {

  /** A value that may be absent (a nullable reference). */
  datatype Option<+T> = None | Some(value: T)

  /** Either a value or the error the operation would have thrown. */
  datatype Result<+R, +E> = Success(value: R) | Failure(error: E)
}
