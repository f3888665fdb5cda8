/** The optional value used wherever the source yields `undefined` or `null`. */
module Wrappers {

  datatype Option<+T> = None | Some(value: T) {

    /** The value, or `default` when there is none. */
    function GetOr(default: T): T {
      match this
      case Some(v) => v
      case None => default
    }

    /** JavaScript's `a || b` on two possibly-undefined records. */
    function Or(other: Option<T>): Option<T> {
      if Some? then this else other
    }
  }
}
