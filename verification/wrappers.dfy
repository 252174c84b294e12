/** The optional value used wherever the source holds `null` or an absent entry. */
module Wrappers {

  datatype Option<+T> = None | Some(value: T) {

    /** Returns the encapsulated value, or `default` when there is none. */
    function GetOr(default: T): T {
      match this
      case Some(v) => v
      case None => default
    }
  }
}
