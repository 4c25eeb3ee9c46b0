/** Failure-carrying datatypes shared by the inventory modules. */
module Wrappers {

  /** A value that may be absent: Python's `None` versus a present object. */
  datatype Option<+T> = None | Some(value: T)

  /** The outcome of a conversion that can be rejected with a reason. */
  datatype Result<+T, +E> = Ok(value: T) | Err(error: E)
}
