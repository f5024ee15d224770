/** Optional values and results with an error, for the null
    results and `false` returns. */
module Wrappers {

  /** A value that may be absent, like a null image from the decoder. */
  datatype Option<+T> = None | Some(value: T)

  /** The outcome of an operation that either produces a value or fails
      with an error. */
  datatype Result<+R, +E> = Success(value: R) | Failure(error: E)
}
