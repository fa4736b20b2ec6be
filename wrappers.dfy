/** Optional values and error-carrying results shared by the other modules. */
module Wrappers {

  /** A value that may be absent: JavaScript's `null`. */
  datatype Option<+T> = None | Some(value: T)

  /** Either a value or the reason the computation stopped. */
  datatype Result<+T, +E> = Ok(value: T) | Err(error: E)
}
