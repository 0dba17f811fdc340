/** An optional value: a file that may be absent, a JSON key that may be missing. */
module Wrappers {

  datatype Option<T> = None | Some(value: T) {

    /** The value held, or `default` when there is none. */
    function GetOr(default: T): T {
      match this
      case Some(v) => v
      case None => default
    }
  }
}
