/** Small shared datatypes. */
module Common {

  /** A value that may be absent: PHP functions that return `false` on failure. */
  datatype Option<+T> = None | Some(value: T) {

    /** The value, or `default` when absent. */
    function GetOr(default: T): T {
      match this
      case Some(v) => v
      case None => default
    }
  }
}
