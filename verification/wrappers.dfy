/** Failure-compatible result types shared by every module of the model. */
module Wrappers {

  /** A value that may be absent: Python's `None`, a missing file, a missing key. */
  datatype Option<+T> = None | Some(value: T)

  /** An operation that either produces a value or is refused with an error. */
  datatype Result<+R, +E> = Success(value: R) | Failure(error: E)
}
