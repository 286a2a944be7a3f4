/** Small failure-carrying datatypes shared by the modules of this project. */
module Wrappers {

  /** A value that may be absent (Go's `(T, bool)` pairs, nil results). */
  datatype Option<+T> = None | Some(value: T)

  /** A value or an error (Go's `(T, error)` pairs, Python exceptions). */
  datatype Result<+T, +E> = Ok(value: T) | Err(error: E)
}
