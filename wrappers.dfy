/** Optional values and the outcome of an operation that may throw. */
module Wrappers {

  /** A value that may be absent (`undefined` or `null` on the JavaScript side). */
  datatype Option<+T> = None | Some(value: T)

  /** The outcome of an async call: a value, or the message of the `Error` it threw. */
  datatype Result<+T> = Ok(value: T) | Err(message: string)
}
