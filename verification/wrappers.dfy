/** Failure-carrying result types used by the model of odtquery. */
module Wrappers {

  /** A value that may be absent; models a Go `error` that may be nil. */
  datatype Option<+T> = None | Some(value: T)

  /** Either a value or an error message. */
  datatype Result<+R, +E> = Success(value: R) | Failure(error: E)
}
