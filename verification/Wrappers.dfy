/** Option and Result, used for nil-able values and for the second, error, return value. */
module Wrappers {
  datatype Option<+T> = None | Some(value: T)

  datatype Result<+T, +E> = Ok(value: T) | Err(error: E)

  /** What running a decoder can lead to: a value, a reported error, or a slice access that
      is out of bounds and stops the program. */
  datatype Outcome<+T> = Done(value: T) | Rejected | Crashed {
    predicate IsFailure() {
      !Done?
    }

    function PropagateFailure<U>(): Outcome<U>
      requires !Done?
    {
      if Rejected? then Rejected else Crashed
    }

    function Extract(): T
      requires Done?
    {
      value
    }
  }

  /** What a loop has collected in front of what a recursion still yields. */
  function Prepend<T>(before: seq<T>, rest: Option<seq<T>>): Option<seq<T>> {
    match rest
    case None => None
    case Some(ts) => Some(before + ts)
  }

  lemma PrependNothing<T>(rest: Option<seq<T>>)
    ensures Prepend([], rest) == rest
  {
    if rest.Some? {
      assert [] + rest.value == rest.value;
    }
  }

  lemma PrependMore<T>(before: seq<T>, more: seq<T>, rest: Option<seq<T>>)
    ensures Prepend(before, Prepend(more, rest)) == Prepend(before + more, rest)
  {
    if rest.Some? {
      assert before + (more + rest.value) == before + more + rest.value;
    }
  }
}
