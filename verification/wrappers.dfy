/** Failure-compatible wrappers shared by the cache models. */
module Wrappers {

  /** A value that may be absent; stands in for a nullable Java reference. */
  datatype Option<+T> = None | Some(value: T)

  /** Either a result or the error that a failed contract check reports. */
  datatype Result<+R, +E> = Success(value: R) | Failure(error: E)
}
