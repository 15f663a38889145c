/** Option: a value that may be missing. A table cell that pandas reads as
    null (NaN/None) is `None`; an empty string is a present value. */
module Wrappers {

  datatype Option<+T> = None | Some(value: T) {

    /** The value, or `default` when missing. */
    function GetOr(default: T): T {
      match this
      case Some(v) => v
      case None => default
    }
  }
}
