/** The two failure-carrying wrappers the model uses. */
module Wrappers {

  /** A value that may be absent: `None` stands for a missing value. */
  datatype Option<+T> = None | Some(value: T)

  /** The outcome of an operation that can raise. */
  datatype Result<+T, +E> = Success(value: T) | Failure(error: E)
}
