/** Option, Result and the error value that Go code passes around as `error`. */
module Wrappers {

  type byte = x: int | 0 <= x < 256

  datatype Option<+T> = None | Some(value: T)

  datatype Result<+T, +E> = Success(value: T) | Failure(error: E)

  /** A Go `error`; only its text (what `err.Error()` returns) matters here. */
  datatype Error = Error(message: string)
}
