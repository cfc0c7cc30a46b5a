/** Option and Result types shared by every module of the model. */
module Wrappers {

  /** A value that may be absent: Go's nil error, a map miss, a failed parse. */
  datatype Option<+T> = None | Some(value: T)

  /** A Go `(value, err)` pair where the value is meaningless when `err` is set. */
  datatype Result<+T, +E> = Ok(value: T) | Err(error: E)
}
