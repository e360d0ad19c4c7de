/** Option and Result values used for the optional lesson host and for
    operations that can be rejected with a validation failure. */
module Wrappers {
  datatype Option<+T> = None | Some(value: T)

  datatype Result<+T, +E> = Ok(value: T) | Err(error: E)
}
