/** Optional values and error results, shared by every module of the model. */
module Wrappers {

  /** A value that may be absent (JavaScript `undefined`/`null`, or a `NaN` from `parseInt`). */
  datatype Option<+T> = None | Some(value: T) {
    /** `x ?? d` */
    function GetOr(default: T): T {
      match this
      case Some(v) => v
      case None => default
    }
  }

  /** The outcome of a request handler: a response, or the error it throws. */
  datatype Result<+R, +E> = Ok(value: R) | Err(error: E)
}
