/** Optional values: a form field or dictionary key that may be absent. */
module Wrappers {

  datatype Option<+T> = None | Some(value: T) {

    /** The value, or `default` when absent (Python's `dict.get(key, default)`). */
    function GetOr(default: T): T {
      match this
      case Some(v) => v
      case None => default
    }
  }
}
