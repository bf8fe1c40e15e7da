/** Success/failure values shared by every module of the model. */
module Wrappers {

  /** A value that may be absent, such as Python's `None`. */
  datatype Option<T> = None | Some(value: T)

  /** The outcome of an operation that the source ends with an exception or `sys.exit(1)`. */
  datatype Result<T, E> = Ok(value: T) | Err(error: E)
}
