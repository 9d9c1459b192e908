/** Failure-carrying wrappers shared by the other modules. */
module Wrappers {

  /** A value that may be absent (Python's `None`). */
  datatype Option<+T> = None | Some(value: T)

  /** A value or an error message (an exception raised by the database). */
  datatype Result<+T> = Ok(value: T) | Err(message: string)
}
