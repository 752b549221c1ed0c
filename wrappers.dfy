/** Option, Result and Outcome: the model's stand-ins for PHP's nullable values and exceptions. */
module Wrappers {

  datatype Option<+T> = None | Some(value: T)

  /** A computation that either yields a value or fails with the error it would have thrown. */
  datatype Result<+T, +E> = Ok(value: T) | Err(error: E)

  /** A computation that yields nothing but may fail. */
  datatype Outcome<+E> = Pass | Fail(error: E)
}
