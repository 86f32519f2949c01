/** Option and Result values used for the error paths of the backend. */
module Wrappers {

  datatype Option<+T> = None | Some(value: T)

  /** The outcome of an operation that either yields a value or throws an error. */
  datatype Result<+R, +E> = Ok(value: R) | Err(error: E)
}
