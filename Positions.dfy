/** Order-keeping selection: the positions of a sequence whose flag is set, in increasing order. */
module Positions {

  /** The positions among the first `n` whose flag is set, in increasing order. */
  function SetUpTo(mask: seq<bool>, n: nat): (idx: seq<nat>)
    requires n <= |mask|
    ensures |idx| <= n
    ensures forall k :: 0 <= k < |idx| ==> idx[k] < n
    ensures forall j, k :: 0 <= j < k < |idx| ==> idx[j] < idx[k]
    ensures forall i :: 0 <= i < n ==> (i in idx <==> mask[i])
  {
    if n == 0 then [] else SetUpTo(mask, n - 1) + (if mask[n - 1] then [n - 1] else [])
  }
}
