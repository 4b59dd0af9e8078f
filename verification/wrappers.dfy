/** Kotlin's nullable values and `kotlin.Result`, as Dafny datatypes. */
module Wrappers {

  /** A Kotlin `T?`: `None` stands for `null`. */
  datatype Option<T> = None | Some(value: T) {

    /** Kotlin's `?:` (elvis) operator. */
    function GetOr(default: T): T {
      match this
      case Some(v) => v
      case None => default
    }
  }

  /** A `kotlin.Result`: a value, or a failure carrying the exception's message
      (`None` when the exception has no message). */
  datatype Result<T> = Success(value: T) | Failure(message: Option<string>)
}
