/** Failure-carrying datatypes used by the registry lookup and the snapshot reader. */
module Wrappers {

  /** A value that may be absent. */
  datatype Option<+T> = None | Some(value: T)

  /** Either a value or an error code. */
  datatype Result<+T, +E> = Success(value: T) | Failure(error: E)
}
