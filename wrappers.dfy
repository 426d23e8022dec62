/** Failure-compatible wrappers shared by the modules of this model. */
module Wrappers {

  datatype Option<+T> = None | Some(value: T)

  /** The outcome of an operation that may raise: the value, or the text of
      the raised exception. */
  datatype Result<+T> = Ok(value: T) | Err(error: string)
}
