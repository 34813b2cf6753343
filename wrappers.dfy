/** Option and Result, the error-carrying values used across the model. */
module Wrappers {

  datatype Option<+T> = None | Some(value: T)

  /** A computation that either produced `value` or raised `error`. */
  datatype Result<+R, +E> = Success(value: R) | Failure(error: E)
}
