/** Option and Result wrappers shared by the whole model. */
module Basics {

  datatype Option<+T> = None | Some(value: T)

  /** The success value or the error that the source raises as an exception. */
  datatype Result<+T, +E> = Ok(value: T) | Err(error: E)
}
