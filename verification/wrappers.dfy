/** Failure-compatible result types shared by the whole model. */
module Wrappers {

  /** A value that may be absent (a Python attribute never assigned, a `None`). */
  datatype Option<+T> = None | Some(value: T)

  /** The outcome of an operation that may raise: `Failure` carries the error. */
  datatype Result<+T, +E> = Success(value: T) | Failure(error: E)
}
