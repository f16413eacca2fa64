/** Small sequence helpers shared by the byte codec and the inspector. */
module Seqs {

  datatype Option<+T> = None | Some(value: T)

  /** The sequence read back to front (`Array.prototype.reverse` on a copy). */
  function Reverse<T>(s: seq<T>): (r: seq<T>)
    ensures |r| == |s|
    ensures forall k :: 0 <= k < |s| ==> r[k] == s[|s| - 1 - k]
  {
    if s == [] then [] else Reverse(s[1..]) + [s[0]]
  }

  /** `count` copies of `x`. */
  function Repeat<T>(x: T, count: nat): (r: seq<T>)
    ensures |r| == count
    ensures forall k :: 0 <= k < count ==> r[k] == x
  {
    if count == 0 then [] else [x] + Repeat(x, count - 1)
  }
}
