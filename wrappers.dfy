/** Optional values and failures: JavaScript's `undefined`/`null` and thrown exceptions. */
module Wrappers {

  /** A value that may be absent (`undefined` or `null` on the JavaScript side). */
  datatype Option<+T> = None | Some(value: T)

  /** Either a value or the error an operation throws. */
  datatype Result<+T, +E> = Ok(value: T) | Err(error: E)
}
