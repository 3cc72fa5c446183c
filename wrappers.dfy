/** Failure-carrying values shared by the other modules. */
module Wrappers {

  /** A value that may be absent: the outcome of a partial conversion. */
  datatype Option<+T> = None | Some(value: T)

  /** Either a value or the error that stopped the computation (a raised exception). */
  datatype Result<+T, +E> = Ok(value: T) | Err(error: E)
}
