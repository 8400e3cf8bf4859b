/** Optional values: a JavaScript field that may be `undefined` or `null`,
    or an SDK call that may throw, is an `Option`. */
module Wrappers {

  datatype Option<+T> = None | Some(value: T) {

    /** The value, or `default` when there is none. */
    function GetOr(default: T): T {
      match this
      case Some(v) => v
      case None => default
    }
  }
}
