/** Option and Result, standing in for Python's `None` and for the HTTP exceptions of the handlers. */
module Wrappers {

  datatype Option<+T> = None | Some(value: T)

  datatype Result<+T, +E> = Ok(value: T) | Err(error: E)
}
