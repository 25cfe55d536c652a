/** Failure-compatible wrappers shared by the model: a value that may be
    missing, and the `{ data, error }` pair a backend call resolves to. */
module Wrappers {

  /** A value that may be absent (JavaScript `null` where the source tests truthiness). */
  datatype Option<+T> = None | Some(value: T)

  /** The outcome of an external call: its data, or the error it reported. */
  datatype Result<+R, +E> = Success(value: R) | Failure(error: E)
}
