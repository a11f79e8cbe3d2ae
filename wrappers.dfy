/** Optional values and success/failure results, the shapes JavaScript expresses
    with `undefined`/`NaN` and with early `return res.status(...)`. */
module Wrappers {

  datatype Option<+T> = None | Some(value: T) {
    function GetOr(default: T): T {
      match this
      case Some(v) => v
      case None => default
    }
  }

  datatype Result<+R, +E> = Success(value: R) | Failure(error: E)
}
