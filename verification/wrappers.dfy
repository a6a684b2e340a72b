/** Failure-carrying result types shared by every module of the model. */
module Wrappers {

  /** An optional value: a missing link, an absent page, an unfilled slot. */
  datatype Option<+T> = None | Some(value: T)

  /** The outcome of an operation that can raise one of the source's exceptions. */
  datatype Result<+R, +E> = Success(value: R) | Failure(error: E)
}
