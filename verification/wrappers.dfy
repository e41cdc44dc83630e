/** Failure-compatible wrappers shared by every module of the model. */
module Wrappers {

  /** A value that may be absent: a missing request parameter, an unset
      data attribute, a NULL column. */
  datatype Option<+T> = None | Some(value: T) {

    /** The wrapped value, or `default` when absent. */
    function GetOr(default: T): (r: T)
      ensures Some? ==> r == value
      ensures None? ==> r == default
    {
      match this
      case Some(v) => v
      case None => default
    }
  }

  /** Either a successful value or an error the caller reports. */
  datatype Result<+R, +E> = Ok(value: R) | Err(error: E) {
    predicate IsFailure() { Err? }
  }

  /** JavaScript truthiness of an optional string: null, undefined and "" are falsy. */
  predicate Truthy<T>(s: Option<seq<T>>)
  {
    s.Some? && |s.value| > 0
  }

  function Min(a: int, b: int): int { if a <= b then a else b }
  function Max(a: int, b: int): int { if a <= b then b else a }
}
