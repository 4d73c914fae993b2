/** Optional values and results with an error, shared by the modules of this model. */
module Wrappers {

  /** A value that may be missing (JavaScript `undefined`). */
  datatype Option<+T> = None | Some(value: T)

  /** The outcome of an operation that may throw. */
  datatype Result<+T, +E> = Ok(value: T) | Err(error: E)
}
