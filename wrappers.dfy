/** Option and Result, for the error paths the C code takes with `exit(1)` or a NULL pointer. */
module Wrappers {
  datatype Option<+T> = None | Some(value: T)

  datatype Result<+T, +E> = Ok(value: T) | Err(error: E)
}
