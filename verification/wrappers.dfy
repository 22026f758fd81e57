/** Absent-versus-present values.  A JavaScript field that may be `undefined`
    (a request property that was not sent, a `localStorage` key that was never
    set) is an `Option`. */
module Wrappers {

  datatype Option<+T> = None | Some(value: T) {

    /** The value when present, otherwise `default`. */
    function GetOr(default: T): T {
      match this
      case Some(v) => v
      case None => default
    }
  }
}
