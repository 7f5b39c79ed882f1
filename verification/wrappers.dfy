/** The two wrappers the model returns values in. */
module Wrappers {

  /** A value that may be absent, as an account slot that may be empty. */
  datatype Option<+T> = None | Some(value: T)

  /** The outcome of one transaction: the state it commits, or why it aborted. */
  datatype Result<+T, +E> = Success(value: T) | Failure(error: E)
}
