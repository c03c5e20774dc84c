/** Failure-carrying results used by the service and by the key policy. */
module Wrappers {

  datatype Option<+T> = None | Some(value: T)

  datatype Result<+T, +E> = Ok(value: T) | Err(error: E)

  /** The result of an operation that returns nothing on success. */
  datatype Outcome<+E> = Pass | Fail(error: E)
}
