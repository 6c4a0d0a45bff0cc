/** Optional values and error-carrying results shared by the tool models. */
module Wrappers {

  /** A value that may be absent: `null`/`undefined` in the JavaScript source. */
  datatype Option<+T> = None | Some(value: T)

  /** The outcome of a step that may throw: a value, or the thrown error's message. */
  datatype Result<+T> = Ok(value: T) | Err(message: string)
}
