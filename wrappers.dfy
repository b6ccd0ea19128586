/** Python's `None` / a present value. */
module Wrappers {

  datatype Option<+T> = None | Some(value: T) {

    /** `x or default` / `dict.get(key, default)`. */
    function GetOr(default: T): T {
      match this
      case Some(v) => v
      case None => default
    }
  }
}
