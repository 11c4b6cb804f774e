/** Optional values and results with an error, shared by the other modules. */
module Wrappers {

  /** A value that may be absent (Python's `None`). */
  datatype Option<T> = None | Some(value: T)

  /** The outcome of an operation that can raise: a value or the error it raises. */
  datatype Result<T, E> = Success(value: T) | Failure(error: E)
}
