/** Option and Result datatypes shared by the store and the handlers. */
module Wrappers {

  /** A value that may be absent: the store's `null`/`undefined` results. */
  datatype Option<+T> = None | Some(value: T)

  /** The outcome of an action that either succeeds or is refused with an error. */
  datatype Result<+R, +E> = Success(value: R) | Failure(error: E)
}
