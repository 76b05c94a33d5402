/** Failure-compatible wrappers shared by the model's modules. */
module Wrappers {

  /** A value that may be absent: JavaScript's `null`/`undefined` result of a failed lookup or match. */
  datatype Option<+T> = None | Some(value: T) {

    /** Returns the value held in Some, or `default` when there is none. */
    function GetOr(default: T): T {
      match this
      case Some(v) => v
      case None => default
    }
  }
}
