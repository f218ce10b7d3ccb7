/** Option and Result values used where the source returns None or raises. */
module Wrappers {

  /** Python's `None` or a present value. */
  datatype Option<+T> = None | Some(value: T) {

    /** The value, or `default` when absent (`dict.get(k, default)`). */
    function GetOr(default: T): T {
      match this
      case Some(v) => v
      case None => default
    }
  }

  /** A computed value, or the failure the source signals by raising. */
  datatype Result<+T, +E> = Ok(value: T) | Err(error: E)
}
