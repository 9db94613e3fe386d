/** The optional value used where the source passes `None` or an int. */
module Wrappers {

  datatype Option<+T> = None | Some(value: T) {

    /** The wrapped value, or `default` when there is none. For an optional
        int and a default of 0 this is Python's `x or 0`, since a wrapped 0
        gives 0 as well. */
    function GetOr(default: T): T {
      match this
      case Some(v) => v
      case None => default
    }
  }
}
