/** Optional values and error returns, in the shape Go's `(value, error)` pairs take here. */
module Wrappers {

  /** A value that may be missing (a failed decode, a failed marshal). */
  datatype Option<+T> = None | Some(value: T)

  /** A value or an error: the model of a Go `(T, error)` return. */
  datatype Result<+T, +E> = Success(value: T) | Failure(error: E)

  /** No value, but possibly an error: the model of a Go function returning only `error`. */
  datatype Outcome<+E> = Pass | Fail(error: E)
}
