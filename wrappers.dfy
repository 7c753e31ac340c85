/** Failure-compatible wrappers shared by the functional registry and the alignment code. */
module Wrappers {

  /** An optional value, as `boost::optional` holds the Hermite order and center. */
  datatype Option<+T> = None | Some(value: T)

  /** Either a value or the error that aborted the operation (a thrown validation error or a failed assertion). */
  datatype Result<+T, +E> = Ok(value: T) | Err(error: E)
}
