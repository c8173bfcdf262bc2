/** Optional values and results with an error, used where the source has
    `undefined`/`null` fields or throws. */
module Wrappers {

  datatype Option<+T> = None | Some(value: T)
  {
    /** `x ?? d` in the source: the value when present, otherwise `d`. */
    function GetOr(d: T): T
    {
      match this
      case Some(v) => v
      case None => d
    }
  }

  datatype Result<+T, +E> = Success(value: T) | Failure(error: E)
}
