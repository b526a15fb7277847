/** The two failure-carrying datatypes the model needs. */
module Wrappers {

  /** Python's `None` or a value. */
  datatype Option<T> = None | Some(value: T)

  /** A computation that returns a value, or stops with an error value. */
  datatype Result<T, E> = Ok(value: T) | Err(error: E)
}
