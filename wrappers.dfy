/** Optional values and results with an error, shared by the other modules. */
module Wrappers {

  /** A value that may be missing: Python's `None` or an absent attribute. */
  datatype Option<+T> = None | Some(value: T) {

    /** The value, or `default` when there is none (`d.get(key, default)`). */
    function GetOr(default: T): T {
      match this
      case Some(v) => v
      case None => default
    }
  }

  /** The outcome of an operation that can raise. */
  datatype Result<+T, +E> = Ok(value: T) | Err(error: E)
}
