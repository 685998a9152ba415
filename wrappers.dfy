/** Option and Result, the model's stand-ins for Python's `None` and for a
    raised exception, and a first-index search used wherever the harness
    stops at the first element that fails some test. */
module Wrappers {

  datatype Option<+T> = None | Some(value: T)

  datatype Result<+R, +E> = Success(value: R) | Failure(error: E)

  /** The index of the first `false` in `bs`, or None when every entry holds. */
  function FirstFalse(bs: seq<bool>): (r: Option<nat>)
    ensures r.None? <==> forall k :: 0 <= k < |bs| ==> bs[k]
    ensures r.Some? ==> r.value < |bs| && !bs[r.value]
    ensures r.Some? ==> forall k :: 0 <= k < r.value ==> bs[k]
  {
    if |bs| == 0 then None
    else if !bs[0] then Some(0)
    else
      match FirstFalse(bs[1..])
      case None => None
      case Some(i) => Some(i + 1)
  }

  /** The first failing index is determined by the two facts FirstFalse promises. */
  lemma FirstFalseUnique(bs: seq<bool>, i: nat)
    requires i < |bs| && !bs[i]
    requires forall k :: 0 <= k < i ==> bs[k]
    ensures FirstFalse(bs) == Some(i)
  {
  }
}
