/** An optional value: stands for a snapshot field that JSON may leave
    undefined, and for a snapshot that local storage may not hold at all. */
module Wrappers {

  datatype Option<+T> = None | Some(value: T) {

    /** The value held, or `default` when there is none (JavaScript's `x || default`
        for the object-valued fields of a snapshot). */
    function GetOr(default: T): T {
      match this
      case Some(v) => v
      case None => default
    }
  }
}
