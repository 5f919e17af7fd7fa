/** Failure-carrying wrapper shared by the modules of this model. */
module Wrappers {

  /** An optional value: the model's stand-in for a nullable result. */
  datatype Option<+T> = None | Some(value: T) {

    /** Returns the carried value, or `default` when there is none. */
    function GetOr(default: T): T {
      match this
      case Some(v) => v
      case None => default
    }
  }
}
