/** JavaScript's `null` / `undefined` for a value that may be missing. */
module Wrappers {

  datatype Option<+T> = None | Some(value: T) {

    /** The wrapped value, or `default` when there is none. */
    function GetOr(default: T): T {
      match this
      case Some(v) => v
      case None => default
    }
  }

  /** The outcome of a client-side form check: the value to send, or the message shown instead. */
  datatype Checked<+R> = Valid(value: R) | Invalid(message: string)
}
