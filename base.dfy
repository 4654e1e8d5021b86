/** Option and Result wrappers shared by both directions, and the exceptions the source can raise. */
module Base {

  datatype Option<T> = None | Some(value: T) {
    function GetOr(default: T): T {
      match this
      case Some(v) => v
      case None => default
    }
  }

  /** The Python exceptions that abort a run of either tool. */
  datatype Error =
    | KeyError(key: string)   // a label that was never defined
    | IndexError              // a split of a line with fewer fields than replace_label reads
    | ValueError              // int() of a malformed string, or list.index of a missing value
    | OverflowError           // int.to_bytes(4, ...) of a value that needs more than 32 bits

  datatype Result<T> = Ok(value: T) | Err(error: Error)
}
