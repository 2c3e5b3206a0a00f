/** Option and Result values shared by the modules of this model. */
module Wrappers {

  /** A value that may be absent; `None` stands for an unset or `undefined` option. */
  datatype Option<+T> = None | Some(value: T) {
    function GetOr(default: T): T {
      match this
      case Some(v) => v
      case None => default
    }
  }

  /** The outcome of an operation that may throw. */
  datatype Result<+R, +E> = Ok(value: R) | Err(error: E)
}
