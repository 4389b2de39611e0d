/** Option and Result values used in place of JavaScript's `undefined` and thrown errors. */
module Wrappers {

  /** A value that may be missing, as `Array.prototype.pop` returns `undefined` on an empty array. */
  datatype Option<+T> = None | Some(value: T)

  /** The outcome of an operation that either returns a value or throws a specific error. */
  datatype Result<+T, +E> = Ok(value: T) | Err(error: E)
}
