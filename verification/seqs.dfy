/** Small sequence utilities used by more than one component. */
module Seqs {

  /** Position of the first element equal to `x`, or `|s|` when there is none
      (the search `ArrayList.remove(Object)` and `String.indexOf` perform). */
  function IndexOf<T(==)>(s: seq<T>, x: T): (i: nat)
    ensures i <= |s|
    ensures i < |s| ==> s[i] == x
    ensures forall j :: 0 <= j < i ==> s[j] != x
    ensures i == |s| <==> x !in s
  {
    if |s| == 0 then 0
    else if s[0] == x then 0
    else 1 + IndexOf(s[1..], x)
  }
}
