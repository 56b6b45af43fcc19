/** Option for absent values (SQL NULL, a missing array key, PHP null). */
module Wrappers {
  datatype Option<+T> = None | Some(value: T) {
    /** The value, or the given default when absent (SQL COALESCE, PHP ??). */
    function GetOr(default: T): T {
      match this
      case Some(v) => v
      case None => default
    }
  }
}

/** The effect of a request handler: the status it ends with and what it sends. */
module Http {
  datatype Response<+T> =
    | Success(status: int, data: T)
    | Failure(status: int, message: string)
}
