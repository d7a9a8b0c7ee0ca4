/** An optional value, and the outcome of an operation that may fail. */
module Wrappers {

  /** A value that may be absent: a JavaScript property that may be `undefined`. */
  datatype Option<+T> = None | Some(value: T)

  /** The outcome of an operation that may fail with a structured error. */
  datatype Result<+R, +E> = Success(value: R) | Failure(error: E)
}
