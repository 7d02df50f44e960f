/** Optional values and results, the stand-ins for Python's None and for error returns. */
module Wrappers {

  datatype Option<+T> = None | Some(value: T)

  datatype Result<+R, +E> = Success(value: R) | Failure(error: E) {
    /** The result with its error dropped, as a caller that only checks for None sees it. */
    function ToOption(): (o: Option<R>)
      ensures o.Some? <==> Success?
      ensures o.Some? ==> o.value == value
    {
      match this
      case Success(v) => Some(v)
      case Failure(_) => None
    }
  }
}
