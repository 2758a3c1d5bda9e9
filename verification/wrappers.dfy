/** Failure-compatible wrappers: a value that may be absent (Python's `None`)
    and a value that may instead be an error (a raised exception). */
module Wrappers {

  /** A value or nothing; `None` plays the part of Python's `None` / pandas' NaN. */
  datatype Option<+T> = None | Some(value: T)

  /** A value or the error that prevented it. */
  datatype Result<+T, +E> = Success(value: T) | Failure(error: E)
}
