/** Small value wrappers shared by the bookmark modules. */
module Wrappers {

  /** A value that may be absent: a nullable field of a backend response. */
  datatype Option<+T> = None | Some(value: T) {

    /** The wrapped value, or `default` when absent (the `x || default` idiom). */
    function GetOr(default: T): T
    {
      match this
      case Some(v) => v
      case None => default
    }
  }
}
