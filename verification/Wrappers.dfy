/** Outcome datatypes shared by every module. */
module Wrappers {

  datatype Option<+T> = None | Some(value: T)

  /** A Go `(value, error)` pair: exactly one half is present. */
  datatype Result<+T, +E> = Ok(value: T) | Err(error: E)
}
