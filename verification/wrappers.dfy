/** Nullable values and raised errors, as the data store's callers see them. */
module Wrappers {

  /** A value that may be missing: a null document field or an absent document. */
  datatype Option<+T> = None | Some(value: T) {

    /** The wrapped value, or `default` when it is missing. */
    function GetOr(default: T): T {
      match this
      case Some(v) => v
      case None => default
    }
  }

  /** Either a normal return value or the error the operation raises. */
  datatype Result<+T, +E> = Ok(value: T) | Err(error: E)
}
