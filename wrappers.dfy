/** Option and Result values used wherever the Go code returns a nil pointer
    or an error next to a value. */
module Wrappers {

  datatype Option<+T> = None | Some(value: T)

  datatype Result<+T, +E> = Ok(value: T) | Err(error: E)
}
