/** Option and Result, the two shapes a lookup result can take. */
module Wrappers {

  /** A value that may be absent, used here for JavaScript's `undefined`. */
  datatype Option<+T> = None | Some(value: T)

  /** A value or the error that a rejected promise would have carried. */
  datatype Result<+R, +E> = Success(value: R) | Failure(error: E)
}
