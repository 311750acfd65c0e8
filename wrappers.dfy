/** Wrappers used for Go's nil-or-value results. */
module Wrappers {

  /** A value that may be absent (Go's nil pointer or nil error). */
  datatype Option<+T> = None | Some(value: T)

  /** A value or the error that replaced it (Go's `(T, error)` pair where
      the error is checked first). */
  datatype Result<+R, +E> = Success(value: R) | Failure(error: E)
}
