/** Optional values (Kotlin's nullable `T?`) and results that may carry a thrown exception. */
module Wrappers {

  /** `T?`: `None` stands for Kotlin's `null`. */
  datatype Option<+T> = None | Some(value: T) {

    /** The Elvis operator `this ?: default`. */
    function GetOr(default: T): T {
      match this
      case Some(v) => v
      case None => default
    }
  }

  /** The outcome of a Kotlin call: a returned value, or an exception thrown to the caller. */
  datatype Result<+T, +E> = Ok(value: T) | Err(error: E)
}
