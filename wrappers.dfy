/** Optional values: JavaScript's `undefined` / `null`, and a missing document. */
module Wrappers {

  datatype Option<T> = None | Some(value: T) {

    /** The wrapped value, or `default` when there is none (the `x ?? d` idiom). */
    function GetOr(default: T): T {
      if Some? then value else default
    }
  }
}
