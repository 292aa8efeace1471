/** Option and Result, used wherever the TypeScript code returns `null`,
    `undefined` or throws an `Error` with a message. */
module Wrappers {

  /** `null` / `undefined` versus a present value. */
  datatype Option<+T> = None | Some(value: T) {

    /** The value, or `default` when absent (JavaScript's `x ?? default`). */
    function GetOr(default: T): T {
      match this
      case Some(v) => v
      case None => default
    }
  }

  /** A successful value or the message of a thrown `Error`. */
  datatype Result<+R> = Ok(value: R) | Err(message: string)
}
