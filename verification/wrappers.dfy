/** Failure-compatible optional values, standing in for the `undefined` / `null`
    results of the JavaScript code being modelled. */
module Wrappers {

  datatype Option<+T> = None | Some(value: T) {

    /** Returns the value in Some, or `default` for None. */
    function GetOr(default: T): T {
      match this
      case Some(v) => v
      case None => default
    }
  }
}
