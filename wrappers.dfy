/** Failure-compatible wrappers used for the thrown errors and the optional
    fields of the modelled TypeScript code. */
module Wrappers {

  /** A value that may be absent (an optional property, or `find` returning `undefined`). */
  datatype Option<+T> = None | Some(value: T)

  /** The outcome of a call that either returns a value or throws an error message. */
  datatype Result<+R, +E> = Success(value: R) | Failure(error: E)
}
