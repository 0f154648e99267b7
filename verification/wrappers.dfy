/** Failure-compatible option type shared by every module of the model. */
module Wrappers {

  /** A value that may be missing: a failed lookup, a Python exception path. */
  datatype Option<+T> = None | Some(value: T) {

    predicate IsFailure() {
      None?
    }

    function PropagateFailure<U>(): Option<U>
      requires None?
    {
      None
    }

    function Extract(): T
      requires Some?
    {
      value
    }

    function GetOr(default: T): T {
      match this
      case Some(v) => v
      case None() => default
    }
  }
}
