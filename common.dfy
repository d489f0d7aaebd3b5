/** Small shared datatypes. */
module Common {

  /** A value that may be missing: a dialog that was cancelled, a call that raised. */
  datatype Option<+T> = None | Some(value: T) {

    function GetOr(default: T): T {
      match this
      case Some(v) => v
      case None => default
    }
  }
}
