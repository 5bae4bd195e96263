/** Shared value types: optional values, results of operations that can
    throw (every error in the fragments service is a JS `Error` carrying a
    message), and bytes. */
module Wrappers {

  datatype Option<+T> = None | Some(value: T)

  /** The outcome of a JS call that either returns a value or throws an
      `Error` whose `message` is `msg`. */
  datatype Result<+T> = Ok(value: T) | Err(msg: string)

  /** A byte of a Node.js `Buffer`. */
  newtype byte = x: int | 0 <= x < 256

  type Bytes = seq<byte>
}
