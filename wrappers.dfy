/** Failure-compatible wrappers used across the model. */
module Wrappers {
  /** A value that may be absent: a missing cell, an undefined ratio, an unmapped label. */
  datatype Option<+T> = None | Some(value: T)

  /** The outcome of a step that can abort, carrying the name of what was missing. */
  datatype Result<+T, +E> = Success(value: T) | Failure(error: E)
}
