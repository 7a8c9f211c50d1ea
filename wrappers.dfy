/** Rust's `Option`, as used throughout the time-tracking tool. */
module Wrappers {

  datatype Option<T> = None | Some(value: T) {

    /** `unwrap_or`: the held value, or `default` when there is none. */
    function GetOr(default: T): T
    {
      match this
      case Some(v) => v
      case None => default
    }
  }
}
