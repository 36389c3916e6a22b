/** Optional values and error-carrying results. */
module Wrappers {

  /** Python's `X | None`. */
  datatype Option<+T> = None | Some(value: T)

  /** A value, or the error the operation raised instead. */
  datatype Result<+T, +E> = Ok(value: T) | Err(error: E)
}
