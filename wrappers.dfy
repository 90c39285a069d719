/** The optional-value datatype used across the model. */
module Wrappers {

  /** A value that may be absent; models JavaScript's `undefined`. */
  datatype Option<+T> = None | Some(value: T) {

    /** The carried value, or `default` when absent. */
    function GetOr(default: T): T
    {
      match this
      case Some(v) => v
      case None => default
    }
  }
}
