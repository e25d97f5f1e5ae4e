/** Failure-carrying datatypes shared by the modules of this model. */
module Wrappers {

  /** A value that may be missing (Python's `None`, pandas' `NA`). */
  datatype Option<+T> = None | Some(value: T)

  /** The outcome of an operation that either returns or raises. */
  datatype Result<+T, +E> = Ok(value: T) | Err(error: E)
}
