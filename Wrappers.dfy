/** Optional values: Python's None and JavaScript's null/undefined where only presence matters. */
module Wrappers {

  datatype Option<+T> = None | Some(value: T) {

    /** The value, or the given default when there is none. */
    function GetOr(default: T): T {
      match this
      case Some(v) => v
      case None => default
    }
  }
}
