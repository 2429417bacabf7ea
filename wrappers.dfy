/** Option and Result types used across the model. */
module Wrappers {

  /** A value that may be absent; Python's `None` return. */
  datatype Option<+T> = None | Some(value: T)

  /** A value or an error; a raised Python exception becomes `Err`. */
  datatype Result<+T, +E> = Ok(value: T) | Err(error: E)
}
