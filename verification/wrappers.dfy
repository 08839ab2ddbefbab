/** Failure-carrying values shared by the other modules. */
module Wrappers {

  /** A value that may be absent: a missing dictionary entry, a string that does not parse. */
  datatype Option<+T> = None | Some(value: T)

  /** The outcome of a computation that may raise. */
  datatype Result<+T, +E> = Ok(value: T) | Err(error: E)
}
