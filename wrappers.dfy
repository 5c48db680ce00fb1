/** Option and Result, the failure-carrying values used throughout the model. */
module Wrappers {

  datatype Option<+T> = None | Some(value: T)

  /** The PHP code throws; the model returns the exception as an `Err`. */
  datatype Result<+T, +E> = Ok(value: T) | Err(error: E)
}
