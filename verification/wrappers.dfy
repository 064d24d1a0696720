/** Option and Result, used for the C code's NULL returns and early returns. */
module Wrappers {

  /** A value that may be absent; `None` stands for a NULL pointer result. */
  datatype Option<+T> = None | Some(value: T)

  /** Either a decoded value or the reason decoding stopped. */
  datatype Result<+T, +E> = Ok(value: T) | Err(error: E)

  /**
    The values of the results before the first error: what a loop that
    stops at its first failure has collected.
   */
  function OkPrefix<T, E>(rs: seq<Result<T, E>>): (vs: seq<T>)
    ensures |vs| <= |rs|
    ensures forall k :: 0 <= k < |vs| ==> rs[k] == Ok(vs[k])
    ensures |vs| < |rs| ==> rs[|vs|].Err?
  {
    if |rs| == 0 || rs[0].Err? then []
    else [rs[0].value] + OkPrefix(rs[1..])
  }

  /**
    The prefix is determined by the two facts OkPrefix ensures: values
    that match the leading results and stop at the end or at an error.
   */
  lemma {:induction false} OkPrefixUnique<T, E>(rs: seq<Result<T, E>>, vs: seq<T>)
    requires |vs| <= |rs|
    requires forall k :: 0 <= k < |vs| ==> rs[k] == Ok(vs[k])
    requires |vs| < |rs| ==> rs[|vs|].Err?
    ensures OkPrefix(rs) == vs
    decreases |vs|
  {
    if |vs| > 0 {
      assert rs[0] == Ok(vs[0]);
      OkPrefixUnique(rs[1..], vs[1..]);
    }
  }
}
