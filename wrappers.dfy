/** Outcome of an operation that can fail; `:-` propagates the failure. */
module Wrappers {

  datatype Option<T> = None | Some(value: T)

  datatype Result<T> = Ok(value: T) | Err(error: string)
  {
    predicate IsFailure() {
      Err?
    }

    function PropagateFailure<U>(): Result<U>
      requires Err?
    {
      Err(error)
    }

    function Extract(): T
      requires Ok?
    {
      value
    }
  }

  /** Output written before a result: a failure stays that failure. */
  function Prepend<T>(s: seq<T>, r: Result<seq<T>>): (q: Result<seq<T>>)
    ensures r.Ok? <==> q.Ok?
    ensures r.Ok? ==> q.value == s + r.value
    ensures r.Err? ==> q == Err(r.error)
  {
    match r
    case Ok(t) => Ok(s + t)
    case Err(e) => Err(e)
  }

  /** Output written before output written before a result. */
  lemma PrependPrepend<T>(a: seq<T>, b: seq<T>, r: Result<seq<T>>)
    ensures Prepend(a, Prepend(b, r)) == Prepend(a + b, r)
  {
    if r.Ok? {
      assert a + (b + r.value) == (a + b) + r.value;
    }
  }
}
