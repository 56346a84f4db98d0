/** Failure-carrying values used across the model. */
module Wrappers {

  /** A value that may be absent; `None` stands for a foreign call that raised. */
  datatype Option<+T> = None | Some(value: T)

  /** The outcome of an operation that may raise instead of returning. */
  datatype Result<+R, +E> = Success(value: R) | Failure(error: E)
}
