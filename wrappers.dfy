/** The Option datatype stands for the source's nullable results (a lookup that
    returns null, an unzip that returns null, a list field that is null). */
module Wrappers {

  datatype Option<+T> = None | Some(value: T) {

    /** The value, or a default when there is none (the source's `x ?? d`). */
    function GetOr(default: T): T {
      match this
      case Some(v) => v
      case None => default
    }
  }
}
