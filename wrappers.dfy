/** Optional values: a field that may be absent (null, undefined or empty) in a record. */
module Wrappers {

  datatype Option<T> = None | Some(value: T) {

    /** The value if present, otherwise the default (the `field || default` idiom). */
    function GetOr(default: T): T {
      match this
      case Some(v) => v
      case None => default
    }
  }
}
