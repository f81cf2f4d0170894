/** Option and Result, the shapes used for PHP's nullable returns and exceptions. */
module Wrappers {

  /** A nullable PHP value: `None` stands for `null`. */
  datatype Option<+T> = None | Some(value: T) {
    function GetOr(default: T): T {
      match this
      case Some(v) => v
      case None => default
    }
  }

  /** A return value or the exception thrown instead. */
  datatype Result<+T, +E> = Ok(value: T) | Err(error: E)
}
