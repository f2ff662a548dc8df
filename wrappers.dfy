/** Optional values, used for "no row found", "no language reported"
    and "nothing to pass to the resolver". */
module Wrappers {

  datatype Option<T> = None | Some(value: T) {

    /** The value held, or `default` when there is none. */
    function GetOr(default: T): T {
      match this
      case Some(v) => v
      case None => default
    }
  }
}
