/** Option and Result, for the operations of the model that can fail. */
module Wrappers {

  datatype Option<+T> = None | Some(value: T)

  /** A value, or the message of the error the source would throw or return. */
  datatype Result<+T, +E> = Ok(value: T) | Err(error: E)
}
