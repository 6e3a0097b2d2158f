/** Failure-carrying results, used where the source throws an exception. */
module Wrappers {

  datatype Option<+T> = None | Some(value: T)

  datatype Result<+R, +E> = Success(value: R) | Failure(error: E)

  /** A result without a value: the call either returned normally or threw `error`. */
  datatype Outcome<+E> = Pass | Fail(error: E)
}
