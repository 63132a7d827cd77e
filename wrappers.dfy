/** Optional values and outcomes that either carry a value or an error. */
module Wrappers {

  /** A value that may be absent: TypeScript's `undefined` / `null`. */
  datatype Option<+T> = None | Some(value: T)

  /** The outcome of an operation that may throw. */
  datatype Result<+T, +E> = Ok(value: T) | Err(error: E)
}
