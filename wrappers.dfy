/** Optional values: `None` stands for Python's `None` (a missing record, a failed
    OpenCV call, a pipeline abort). */
module Wrappers {

  datatype Option<+T> = None | Some(value: T) {

    /** The contained value, or `default` when there is none. */
    function GetOr(default: T): T {
      match this
      case Some(v) => v
      case None => default
    }
  }
}
