/** A value that may be absent: an RGB box the user has left empty is None. */
module Wrappers {

  datatype Option<+T> = None | Some(value: T) {

    /** The held value, or `fallback` when there is none. */
    function GetOr(fallback: T): T {
      if Some? then value else fallback
    }
  }
}
