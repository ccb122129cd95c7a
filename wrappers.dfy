/** Option and Result values, used for Python exceptions and absent values. */
module Wrappers {

  datatype Option<+T> = None | Some(value: T)

  /** The outcome of a Python expression that may raise: a value, or the error raised. */
  datatype Result<+T, +E> = Ok(value: T) | Err(error: E)
}
