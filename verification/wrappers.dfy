/** Failure-compatible result types used across the model. */
module Wrappers {

  /** A value that may be absent; `None` plays the role of the script's `-1`
      "no match" return and of a palette lookup that falls off the palette. */
  datatype Option<+T> = None | Some(value: T)

  /** The outcome of a whole run: a value, or the error that aborted it. */
  datatype Result<+T, +E> = Success(value: T) | Failure(error: E)
}
