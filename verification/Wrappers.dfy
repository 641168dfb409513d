/** The two result shapes every other module uses in place of Go's `(T, bool)` and `(T, error)`. */
module Wrappers {
  datatype Option<+T> = None | Some(value: T)

  datatype Result<+T, +E> = Ok(value: T) | Err(error: E)
}
