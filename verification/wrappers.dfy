/** Optional values and fallible results shared by the model. */
module Wrappers {

  /** A value that may be absent: a JS `undefined`/`null`, or a missing map key. */
  datatype Option<+T> = None | Some(value: T) {

    /** The wrapped value, or `default` when there is none (the `||` fallback). */
    function GetOr(default: T): T {
      match this
      case Some(v) => v
      case None => default
    }
  }

  /** The outcome of a call that may throw: `Failure` carries the thrown error. */
  datatype Result<+T> = Success(value: T) | Failure(error: string)
}
