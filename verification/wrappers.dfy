/** Failure-carrying result types shared by the store model. */
module Wrappers {

  /** A value that may be absent: the `undefined` a handler or `find` can yield. */
  datatype Option<+T> = None | Some(value: T)

  /** The outcome of an operation that can fail before it changes anything. */
  datatype Result<+R, +E> = Success(value: R) | Failure(error: E)
}
