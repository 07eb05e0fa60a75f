/** Option, the one failure-compatible wrapper the model needs. PHP's null, a
    missing array key and the `''` sentinel the updater returns for
    "nothing found" all become None. */
module Wrappers {

  datatype Option<+T> = None | Some(value: T) {

    /** The value, or `default` when absent: PHP's `$x ?? $default`. */
    function GetOr(default: T): T {
      match this
      case Some(v) => v
      case None => default
    }
  }
}
