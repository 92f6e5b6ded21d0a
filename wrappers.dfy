/** Option and Result, for JavaScript's `undefined` and for lookups that can fail. */
module Wrappers {

  datatype Option<+T> = None | Some(value: T) {
    /** `x ?? default` */
    function GetOr(default: T): T {
      match this
      case Some(v) => v
      case None => default
    }
  }

  datatype Result<+R, +E> = Success(value: R) | Failure(error: E)
}
