/** Option and Result wrappers for the storage layer's "not found" results. */
module Wrappers {

  /** A value that may be absent: TypeScript's `undefined`/`null`. */
  datatype Option<+T> = None | Some(value: T)

  /** A value, or the message of the `Error` the operation throws. */
  datatype Result<+T> = Ok(value: T) | Err(message: string)
}
