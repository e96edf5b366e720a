/** The Option type used wherever the Java code returns or accepts `null`. */
module Wrappers {

  datatype Option<+T> = None | Some(value: T) {

    /** Returns the value held by Some, or `default` for None. */
    function GetOr(default: T): T {
      match this
      case Some(v) => v
      case None => default
    }
  }
}
