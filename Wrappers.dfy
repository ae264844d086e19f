/** Optional values: the model's stand-in for Python's `None`. */
module Wrappers {

  datatype Option<+T> = None | Some(value: T) {

    /** The value, or `default` when there is none. */
    function GetOr(default: T): T {
      match this
      case Some(v) => v
      case None => default
    }
  }

  /** SQL `COALESCE(x, y)`: the first of the two that is not NULL. */
  function Coalesce<T>(x: Option<T>, y: Option<T>): (r: Option<T>)
    ensures x.Some? ==> r == x
    ensures x.None? ==> r == y
    ensures r.None? <==> x.None? && y.None?
  {
    if x.Some? then x else y
  }
}
