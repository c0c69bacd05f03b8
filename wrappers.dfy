/** Failure-carrying values used by the driver model. */
module Wrappers {

  /** A value that may be absent. */
  datatype Option<+T> = None | Some(value: T)

  /** Either a value or the error that replaced it (Go's `(value, error)` pair). */
  datatype Result<+T, +E> = Ok(value: T) | Err(error: E)
}
