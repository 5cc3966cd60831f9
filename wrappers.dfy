/** Failure-carrying result types used across the model. */
module Wrappers {

  /** A value that may be absent (Java's nullable references). */
  datatype Option<+T> = None | Some(value: T)

  /** The outcome of a check: it passes, or it fails with an error. */
  datatype Outcome<+E> = Pass | Fail(error: E)
}
