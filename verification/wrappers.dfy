/** Option and Result, the failure-carrying values used throughout the model. */
module Wrappers {

  datatype Option<+T> = None | Some(value: T) {
    function GetOr(default: T): T {
      match this
      case Some(v) => v
      case None => default
    }
  }

  /** `Err` carries a message, as the finder's `anyhow::Error` / `String` errors do. */
  datatype Result<+T> = Ok(value: T) | Err(message: string)
}
