/** Failure-carrying values used across the model. */
module Wrappers {

  datatype Option<+T> = None | Some(value: T)

  /** The outcome of an awaited call: its value, or the exception it rejected with. */
  datatype Result<+R, +E> = Success(value: R) | Failure(error: E)
}
