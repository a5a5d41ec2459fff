/** Option and Result, used for dictionary look-ups and for exceptions that
    escape a whole function. */
module Wrappers {

  datatype Option<+T> = None | Some(value: T)

  datatype Result<+T, +E> = Ok(value: T) | Err(error: E)
}
