/** Optional values and Python-style raised exceptions, shared by every module. */
module Wrappers {

  /** Python's `None` versus a present value. */
  datatype Option<+T> = None | Some(value: T) {
    function GetOr(default: T): T {
      match this
      case Some(v) => v
      case None => default
    }
  }

  /** The exceptions the modelled code raises: `float` rejecting its text,
      and the runner giving up on a configuration it cannot use. */
  datatype Exception = ValueError | SystemExit

  /** A computation that either returns a value or raises. */
  datatype Result<+T> = Ok(value: T) | Raised(error: Exception)
}
