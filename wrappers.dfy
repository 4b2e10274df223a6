/** Optional values: a parsed request parameter (None when it does not parse as an
    integer), a field present or absent in a decoded JSON body, a backend fault. */
module Wrappers {

  datatype Option<+T> = None | Some(value: T) {

    /** The wrapped value, or `default` when there is none. */
    function GetOr(default: T): T {
      match this
      case Some(v) => v
      case None => default
    }
  }
}
