/** The optional value used wherever the dashboard backend reads a key that may be absent
    or a string that may fail to parse. */
module Wrappers {
  datatype Option<+T> = None | Some(value: T) {
    /** The value, or the default when there is none: Python's dict.get(key, default). */
    function GetOr(default: T): T {
      match this
      case Some(v) => v
      case None => default
    }
  }
}
