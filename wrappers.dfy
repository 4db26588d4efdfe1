/** Failure-compatible wrappers used to model Go's `(value, error)` returns. */
module Wrappers {

  /** A value that may be absent (Go's nil slice). */
  datatype Option<+T> = None | Some(value: T)

  /** A Go `(T, error)` pair: exactly one of the two is meaningful. */
  datatype Result<+T, +E> = Ok(value: T) | Err(error: E)

  /** A Go function that returns only an `error`. */
  datatype Outcome<+E> = Pass | Fail(error: E)

  /** A result with `prefix` in front of its value; an error stays as it is. */
  function Prepend<T, E>(prefix: seq<T>, r: Result<seq<T>, E>): Result<seq<T>, E>
  {
    match r
    case Ok(rest) => Ok(prefix + rest)
    case Err(e) => Err(e)
  }

  lemma PrependEmpty<T, E>(r: Result<seq<T>, E>)
    ensures Prepend([], r) == r
  {
    if r.Ok? {
      assert [] + r.value == r.value;
    }
  }

  lemma PrependTwice<T, E>(a: seq<T>, b: seq<T>, r: Result<seq<T>, E>)
    ensures Prepend(a, Prepend(b, r)) == Prepend(a + b, r)
  {
    if r.Ok? {
      assert a + (b + r.value) == (a + b) + r.value;
    }
  }
}
