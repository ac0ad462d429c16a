/** The optional value used throughout the model for Go's nil results and nil errors, and
    the outcome of code that may panic. */
module Wrappers {

  datatype Option<+T> = None | Some(value: T) {

    /** The wrapped value, or `default` when there is none. */
    function GetOr(default: T): T {
      match this
      case Some(v) => v
      case None => default
    }
  }

  /** The result of Go code that may instead abort with an index-out-of-range panic. */
  datatype Outcome<+T> = Returned(value: T) | IndexPanic
}
