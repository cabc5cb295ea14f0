/** PHP's nullable values. */
module Wrappers {

  datatype Option<+T> = None | Some(value: T) {

    /** PHP `$x ?? default`. */
    function GetOr(default: T): T {
      match this
      case Some(v) => v
      case None => default
    }
  }
}
