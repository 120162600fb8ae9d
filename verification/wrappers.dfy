/** The optional-value datatype used throughout the model for C's nullable
    pointers (a missing strtok token, a NULL command line) and for lookups
    that may fail. */
module Wrappers {

  datatype Option<+T> = None | Some(value: T) {

    /** Returns the value in Some, or `default` when None. */
    function GetOr(default: T): T
    {
      match this
      case Some(v) => v
      case None => default
    }
  }
}
