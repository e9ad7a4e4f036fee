/** Option and Result, the two failure-carrying shapes the watcher's code uses. */
module Wrappers {

  datatype Option<+T> = None | Some(value: T) {
    function GetOr(default: T): T {
      match this
      case Some(v) => v
      case None => default
    }
  }

  /** `Err` carries the message the source attaches with `anyhow!` or `.context(..)`. */
  datatype Result<+T> = Ok(value: T) | Err(error: string)
}
