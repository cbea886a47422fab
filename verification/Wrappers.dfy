/** Option and Result, for the source's optional fields and error returns, and sequences built up under them. */
module Wrappers {
  datatype Option<+T> = None | Some(value: T)

  /** Failure-compatible, so `:-` stands for the source's `?`. */
  datatype Result<+T, +E> = Ok(value: T) | Err(error: E) {
    predicate IsFailure() {
      Err?
    }

    function PropagateFailure<U>(): Result<U, E>
      requires Err?
    {
      Err(error)
    }

    function Extract(): T
      requires Ok?
    {
      value
    }
  }

  /** Puts `head` before a sequence that may have failed. */
  function Prepend<T, E>(head: seq<T>, r: Result<seq<T>, E>): Result<seq<T>, E> {
    var tail :- r;
    Ok(head + tail)
  }

  lemma Regroup<T>(a: seq<T>, b: seq<T>, c: seq<T>)
    ensures a + b + c == a + (b + c)
  {}
}
