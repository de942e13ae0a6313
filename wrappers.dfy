/** Failure-carrying results shared by the modules of this model. */
module Wrappers {

  datatype Option<+T> = None | Some(value: T)

  /** The outcome of an operation that the Java code aborts with an exception. */
  datatype Result<+T, +E> = Ok(value: T) | Err(error: E)
}
