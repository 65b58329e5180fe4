/** Failure-carrying values used by the converter model. */
module Wrappers {

  /** A value that may be missing: a read past the end of the input, a failed inflation. */
  datatype Option<+T> = None | Some(value: T)

  /** The outcome of a step that either produces a value or stops the conversion with an error. */
  datatype Result<+T, +E> = Success(value: T) | Failure(error: E)
}
