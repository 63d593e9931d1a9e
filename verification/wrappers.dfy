/** Failure-carrying values used across the model: an optional value, and
    the outcome of an operation that the original program can abort with an
    exception. */
module Wrappers {

  datatype Option<+T> = None | Some(value: T)

  datatype Result<+T, +E> = Ok(value: T) | Err(error: E)
}
