/** Option and Result datatypes used throughout the deque model. */
module Wrappers {

  /** A value that may be absent: an uninitialised element cell is None. */
  datatype Option<+T> = None | Some(value: T)

  /** The outcome of an operation that can fail with an error of type E. */
  datatype Result<+R, +E> = Success(value: R) | Failure(error: E)
}
