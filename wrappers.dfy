/** Failure-carrying values shared by the modules of the model. */
module Wrappers {

  /** A value that may be absent: Python's None, or an oracle call that raised. */
  datatype Option<+T> = None | Some(value: T)

  /** A computation that succeeded with a value or failed with a message. */
  datatype Result<+T, +E> = Success(value: T) | Failure(error: E)
}
