/** Failure-carrying values used in place of the exceptions and `None`s of the
    modelled scripts. */
module Wrappers {

  datatype Option<+T> = None | Some(value: T)

  datatype Result<+T, +E> = Ok(value: T) | Err(error: E)

  /** A check that either passes or fails with a message. */
  datatype Outcome<+E> = Pass | Fail(error: E)
}
