/** Option and Result, for Python's `None` and caught exceptions. */
module Wrappers {

  datatype Option<+T> = None | Some(value: T)

  /** The outcome of a collaborator call that may raise: its value, or the exception's message. */
  datatype Result<+T> = Ok(value: T) | Raised(message: string)
}
