/** Optional values: Python's `None` or a value, and a collaborator call that
    either returned a value or raised. */
module Wrappers {

  datatype Option<+T> = None | Some(value: T) {

    /** The value, or `default` when there is none (`x or default`, or a
        `try/except` that falls back to `default`). */
    function GetOr(default: T): T {
      match this
      case Some(v) => v
      case None => default
    }
  }
}
