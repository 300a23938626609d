/** Optional values and fallible results, used by every other module. */
module Wrappers {

  /** A value that may be absent: JavaScript's `undefined`/`null` at a typed boundary. */
  datatype Option<+T> = None | Some(value: T) {
    function GetOr(default: T): T {
      match this
      case Some(v) => v
      case None => default
    }
  }

  /** The outcome of an operation that can throw: `Err` carries the reason. */
  datatype Result<+T, +E> = Ok(value: T) | Err(error: E)
}
