/** Failure-carrying datatypes shared by the rest of the model. */
module Wrappers {

  /** An optional value: a JSON key that may be absent, a parse that may fail. */
  datatype Option<+T> = None | Some(value: T) {

    /** The value when present, otherwise `default` (Python's `dict.get(key, default)`). */
    function GetOr(default: T): T {
      match this
      case Some(v) => v
      case None => default
    }
  }

  /** A value, or the description of the exception that replaced it. */
  datatype Result<+T, +E> = Ok(value: T) | Err(error: E)
}
