/** The optional value used wherever the router keeps a possibly-nil reference
    (a device pointer, an empty table slot). */
module Wrappers {

  datatype Option<+T> = None | Some(value: T) {

    /** Returns the value held by `Some`, or `default` for `None`. */
    function GetOr(default: T): T
    {
      match this
      case Some(v) => v
      case None => default
    }
  }
}
