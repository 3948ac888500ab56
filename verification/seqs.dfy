/** Positions in sequences, shared by the three map-building loops. */
module Seqs {

  /** The position of the last element whose key is `k`, or -1 when no
      element has that key.  A Go loop `m[key(x)] = x` over `s` leaves
      under `k` exactly the element at this position. */
  function LastIndex<T, K(==)>(s: seq<T>, key: T -> K, k: K): (j: int)
    ensures -1 <= j < |s|
    ensures j >= 0 ==> key(s[j]) == k
    ensures forall i :: j < i < |s| ==> key(s[i]) != k
    decreases |s|
  {
    if |s| == 0 then -1
    else if key(s[|s| - 1]) == k then |s| - 1
    else LastIndex(s[..|s| - 1], key, k)
  }
}
