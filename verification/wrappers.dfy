/** Optional and failure-carrying values used throughout the model. */
module Wrappers {

  /** A value that may be absent; `None` stands for JavaScript's `null`. */
  datatype Option<+T> = None | Some(value: T)

  /** The outcome of a computation that may fail with an error of type `E`. */
  datatype Result<+R, +E> = Success(value: R) | Failure(error: E)
}
