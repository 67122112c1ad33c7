/** Failure-compatible wrappers used throughout the model. */
module Wrappers {

  /** A value that may be missing: JavaScript's `undefined`/`null` versus a present value. */
  datatype Option<+T> = None | Some(value: T)

  /** The `neverthrow` Result of the library: `ok(value)` or `err(error)`. */
  datatype Result<+T, +E> = Ok(value: T) | Err(error: E)
}
