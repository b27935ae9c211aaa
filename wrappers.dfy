/** Option and Result types for absent values and error returns. */
module Wrappers {

  datatype Option<+T> = None | Some(value: T)

  /** A value, or the error that the JavaScript code would have thrown. */
  datatype Result<+T, +E> = Ok(value: T) | Err(error: E)

  /** Success without a value, or the error that was thrown. */
  datatype Outcome<+E> = Pass | Fail(error: E)
}
