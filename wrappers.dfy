/** Optional values and success-or-error outcomes shared by the route models. */
module Wrappers {
  /** A value that may be missing: JavaScript's `undefined`. */
  datatype Option<+T> = None | Some(value: T)

  /** The outcome of a check that either passes a value on or stops with an error. */
  datatype Result<+T, +E> = Ok(value: T) | Err(error: E)
}
