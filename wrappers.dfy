/** Optional values and results with an error, as used throughout the model. */
module Wrappers {

  /** `nil` or a value. */
  datatype Option<+T> = None | Some(value: T)

  /** A successful result or the error that a call raises instead. */
  datatype Result<+T, +E> = Ok(value: T) | Err(error: E)
}
