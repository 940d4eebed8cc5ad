/** Option and Result datatypes shared by the model. */
module Wrappers {

  /** A value that may be absent, like Python's `None` or a value. */
  datatype Option<+T> = None | Some(value: T)

  /** The outcome of a computation that may raise instead of returning. */
  datatype Result<+T, +E> = Ok(value: T) | Err(error: E)
}
