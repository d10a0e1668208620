/** Option and Result, standing in for C#'s null references and thrown exceptions. */
module Wrappers {

  /** A reference that may be null: `None` is C#'s `null`. */
  datatype Option<+T> = None | Some(value: T)

  /** The outcome of an operation that may throw instead of returning. */
  datatype Result<+T, +E> = Success(value: T) | Failure(error: E)
}
