/** Failure-carrying return values shared by the modules of this model. */
module Outcomes {

  /** A value that may be absent, like Python's `None`. */
  datatype Option<+T> = None | Some(value: T)

  /** The value of a call that either returns normally or raises. */
  datatype Result<+T, +E> = Ok(value: T) | Err(error: E)

  /** The value of a call that returns nothing (`-> None`) or raises. */
  datatype Outcome<+E> = Pass | Fail(error: E)
}
