/** Optional values and results of operations that can raise. */
module Wrappers {

  /** An optional value; `None` plays the part of Python's `None`. */
  datatype Option<+T> = None | Some(value: T)

  /** Either the value an operation returned or the reason it raised. */
  datatype Result<+T, +E> = Success(value: T) | Failure(error: E)
}
