/** Option and Result values used throughout the model. */
module Wrappers {

  /** A value that may be absent: a missing JSON key, a NULL column. */
  datatype Option<+T> = None | Some(value: T)

  /** The outcome of a handler: a value, or the error it raises. */
  datatype Result<+T, +E> = Ok(value: T) | Err(error: E)

  /** The outcome of a check that returns nothing when it passes. */
  datatype Outcome<+E> = Pass | Fail(error: E)
}
