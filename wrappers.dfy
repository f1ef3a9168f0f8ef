/** The optional value used wherever the source returns None, null or undefined. */
module Wrappers {

  datatype Option<+T> = None | Some(value: T) {

    /** Returns the value held in Some, or `default` for None. */
    function GetOr(default: T): T {
      match this
      case Some(v) => v
      case None => default
    }
  }
}
