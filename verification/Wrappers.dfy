module Wrappers {

  /** A value that may be absent: SQL NULL, JavaScript null or undefined, or NaN. */
  datatype Option<+T> = None | Some(value: T) {

    /** COALESCE(this, default), or `this ?? default`. */
    function GetOr(default: T): T {
      match this
      case Some(v) => v
      case None => default
    }
  }
}
