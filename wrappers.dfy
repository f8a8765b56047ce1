/** Failure-carrying values shared by the configurator model. */
module Wrappers {

  datatype Option<+T> = None | Some(value: T)

  /** A computation that either produces a value or fails with an error,
      as the configurator's `throw` does. */
  datatype Result<+T, +E> = Ok(value: T) | Err(error: E)
}
