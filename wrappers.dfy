/** The Option datatype used where the painter keeps an optional value
    (the pending colour, the last drawn bounding box, the custom brush image). */
module Wrappers {

  datatype Option<+T> = None | Some(value: T) {

    /** The wrapped value, or `default` when there is none. */
    function GetOr(default: T): T {
      match this
      case Some(v) => v
      case None => default
    }
  }
}
