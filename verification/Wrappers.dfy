// Failure-compatible results shared by every module.
module Wrappers {

  /** A value or the error the Go code returns in its place. */
  datatype Result<+T, +E> = Ok(value: T) | Err(error: E) {

    predicate IsFailure() {
      Err?
    }

    function PropagateFailure<U>(): Result<U, E>
      requires Err?
    {
      Err(error)
    }

    function Extract(): T
      requires Ok?
    {
      value
    }
  }

  datatype Option<+T> = None | Some(value: T) {

    function UnwrapOr(default: T): T {
      match this
      case Some(v) => v
      case None => default
    }
  }

  /** A partial result in front of the rest of a computation that may still fail. */
  function Before<T, E>(out: seq<T>, r: Result<seq<T>, E>): Result<seq<T>, E> {
    match r
    case Ok(rest) => Ok(out + rest)
    case Err(e) => Err(e)
  }

  lemma BeforeNothing<T, E>(r: Result<seq<T>, E>)
    ensures Before([], r) == r
  {
    if r.Ok? {
      assert [] + r.value == r.value;
    }
  }

  lemma BeforeStep<T, E>(out: seq<T>, step: seq<T>, r: Result<seq<T>, E>)
    ensures Before(out, Before(step, r)) == Before(out + step, r)
  {
    if r.Ok? {
      assert out + (step + r.value) == (out + step) + r.value;
    }
  }
}
