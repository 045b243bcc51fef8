/** A request field is either sent with a value or left out. */
module Wrappers {

  datatype Option<+T> = None | Some(value: T) {

    /** The sent value, or `fallback` when the field was left out. */
    function GetOr(fallback: T): T {
      if Some? then value else fallback
    }

    /** This field when it was sent, otherwise `earlier`: the later of two requests wins. */
    function Or(earlier: Option<T>): Option<T> {
      if Some? then this else earlier
    }
  }
}
