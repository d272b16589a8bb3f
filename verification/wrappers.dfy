/** Failure-carrying result types shared by the modules of the model. */
module Wrappers {

  /** A value that may be absent: a read that failed, a malformed input. */
  datatype Option<+T> = None | Some(value: T)

  /** The outcome of a step that either produces a value or stops the run with an error. */
  datatype Result<+R, +E> = Success(value: R) | Failure(error: E)
}
