/** Values that may be missing: JavaScript's `undefined` and `null`. */
module Wrappers {

  datatype Option<+T> = None | Some(value: T) {

    /** The value, or `default` when there is none: the operator `??`. */
    function Or(default: T): T {
      if Some? then value else default
    }
  }
}
