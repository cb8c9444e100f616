/** Failure-compatible result types shared by every part of the model. */
module Results {

  /** The ways a job or a score vector can fail to be decoded, encoded or executed. */
  datatype Error =
    | Truncated        // the stream ended before a declared field was complete
    | InvalidUtf8      // a content's byte slice is not well-formed UTF-8
    | TrailingBytes    // bytes are left over after the last couple
    | OutOfRange       // an integer does not fit an unsigned 64-bit field
    | IndexOutOfRange  // a couple names a content that does not exist

  datatype Option<+T> = None | Some(value: T)

  datatype Result<+T> = Ok(value: T) | Err(error: Error) {
    predicate IsFailure() { Err? }

    function PropagateFailure<U>(): Result<U>
      requires Err?
    {
      Err(error)
    }

    function Extract(): T
      requires Ok?
    {
      value
    }
  }

  /** Drops the unread remainder of a successful parse. */
  function Value<T, R>(r: Result<(T, R)>): Result<T> {
    match r
    case Ok((v, _)) => Ok(v)
    case Err(e) => Err(e)
  }

  /** Puts `xs` in front of the list a successful parse produced. */
  function Prepend<T, R>(xs: seq<T>, r: Result<(seq<T>, R)>): Result<(seq<T>, R)> {
    match r
    case Ok((ys, rest)) => Ok((xs + ys, rest))
    case Err(e) => Err(e)
  }

  /** A result paired with the bytes left unread after it. */
  function Resume<T, R>(r: Result<T>, rest: R): Result<(T, R)> {
    match r
    case Ok(v) => Ok((v, rest))
    case Err(e) => Err(e)
  }

  lemma PrependTwice<T, R>(xs: seq<T>, ys: seq<T>, r: Result<(seq<T>, R)>)
    ensures Prepend(xs, Prepend(ys, r)) == Prepend(xs + ys, r)
  {
    if r.Ok? {
      assert xs + (ys + r.value.0) == (xs + ys) + r.value.0;
    }
  }

  lemma PrependNothing<T, R>(r: Result<(seq<T>, R)>)
    ensures Prepend([], r) == r
  {
    if r.Ok? {
      assert [] + r.value.0 == r.value.0;
    }
  }

  lemma PrependDone<T, R>(xs: seq<T>, rest: R)
    ensures Prepend(xs, Ok(([], rest))) == Ok((xs, rest))
  {
    assert xs + [] == xs;
  }
}
