/** The optional value used wherever the source has `undefined`, `null` or `NaN`, and the
    value a `throw` carries. */
module Wrappers {

  /** A thrown value: an `Error` object with its message, or anything else. */
  datatype Thrown = ErrorObject(message: string) | OtherThrown

  datatype Option<+T> = None | Some(value: T) {

    /** Returns the value in Some, or the given default when None */
    function GetOr(default: T): T {
      match this
      case Some(v) => v
      case None => default
    }
  }
}
