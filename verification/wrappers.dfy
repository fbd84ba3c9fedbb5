/** Optional values and results with an error, shared by every module. */
module Wrappers {

  /** `undefined` in the source is `None`. */
  datatype Option<+T> = None | Some(value: T)

  /** A thrown error is `Err`; a normal return is `Ok`. */
  datatype Result<+T, +E> = Ok(value: T) | Err(error: E)
}
