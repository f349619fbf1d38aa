/** The optional value used for a regular-expression match that may fail,
    a label body that may be absent, and a dictionary key that may be missing. */
module Wrappers {
  datatype Option<+T> = None | Some(value: T) {
    function GetOr(default: T): T {
      match this
      case Some(v) => v
      case None => default
    }
  }
}
