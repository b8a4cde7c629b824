/** Option and Result, the two failure-carrying datatypes the model uses in
    place of JavaScript's `undefined`/`null` and thrown exceptions. */
module Results {

  datatype Option<+T> = None | Some(value: T) {

    /** The wrapped value, or `default` when there is none. */
    function GetOr(default: T): T {
      match this
      case Some(v) => v
      case None => default
    }
  }

  /** A computation that either produced a value or threw; the thrown value is `error`. */
  datatype Result<+R, +E> = Success(value: R) | Failure(error: E) {

    predicate IsFailure() {
      Failure?
    }

    function PropagateFailure<U>(): Result<U, E>
      requires Failure?
    {
      Failure(error)
    }

    function Extract(): R
      requires Success?
    {
      value
    }
  }

  /** Where the character at index `o`, if any, ends up once one character
      is inserted at index `p`. */
  function ShiftIndex(o: Option<nat>, p: nat): Option<nat> {
    match o
    case None => None
    case Some(k) => Some(if k < p then k else k + 1)
  }
}
