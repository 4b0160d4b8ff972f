/** Failure-carrying result type used for the error paths of a group run. */
module Wrappers {

  /** Either the value an operation produced or the reason it gave up. */
  datatype Result<+R, +E> = Success(value: R) | Failure(error: E)
}
