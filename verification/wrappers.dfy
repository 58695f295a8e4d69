/** Failure-carrying return types shared by the model. */
module Wrappers {

  /** A value that may be absent, as a JSON field or a nullable column may be. */
  datatype Option<+T> = None | Some(value: T) {

    /** The carried value, or `default` when there is none (Python's `dict.get(key, default)`). */
    function GetOr(default: T): (r: T)
      ensures Some? ==> r == value
      ensures None? ==> r == default
    {
      match this
      case Some(v) => v
      case None => default
    }
  }

  /** Either a result value or the error that prevented it. */
  datatype Result<+R, +E> = Success(value: R) | Failure(error: E)

  /** A pass/fail verdict that carries no value on success. */
  datatype Outcome<+E> = Pass | Fail(error: E)
}
