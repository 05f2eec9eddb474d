/** Option and Result, the two failure-carrying wrappers the model uses
    for Kotlin's nullable values and thrown exceptions. */
module Wrappers {

  /** A value that may be absent (Kotlin's `T?`). */
  datatype Option<+T> = None | Some(value: T)

  /** A value or an error (a Kotlin call that may throw). */
  datatype Result<+R, +E> = Success(value: R) | Failure(error: E)
}
