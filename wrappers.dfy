// Failure-carrying result types shared by the modules of this model.
module Wrappers {

  datatype Option<+T> = None | Some(value: T)

  /** A value or an error message, for the source's `(T, error)` returns. */
  datatype Result<+T, +E> = Ok(value: T) | Err(error: E)
}
