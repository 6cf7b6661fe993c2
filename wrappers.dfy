/** Optional values: `None` stands for Python's `None` and, where a
    member says so, for an exception the source lets propagate. */
module Wrappers {
  datatype Option<+T> = None | Some(value: T) {
    function GetOr(default: T): T {
      match this
      case Some(v) => v
      case None => default
    }
  }
}
