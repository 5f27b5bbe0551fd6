/** Optional values, used for the engine calls that can
    return nothing (a failed load, a cancelled dialog, a pass that raised). */
module Wrappers {

  datatype Option<+T> = None | Some(value: T) {

    /** The value in Some, or the given default. */
    function GetOr(default: T): T {
      match this
      case Some(v) => v
      case None => default
    }
  }
}
