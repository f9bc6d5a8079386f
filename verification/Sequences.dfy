/** Sequences with one element put in, taken out or moved, and sequences read backwards. */
module Sequences {

  function InsertAt<T>(s: seq<T>, c: nat, x: T): (r: seq<T>)
    requires c <= |s|
    ensures |r| == |s| + 1 && r[c] == x
    ensures forall k {:trigger r[k]} | 0 <= k < c :: r[k] == s[k]
    ensures forall k {:trigger r[k]} | c < k < |r| :: r[k] == s[k - 1]
  {
    seq(|s| + 1, k requires 0 <= k <= |s| => if k < c then s[k] else if k == c then x else s[k - 1])
  }

  function RemoveAt<T>(s: seq<T>, d: nat): (r: seq<T>)
    requires d < |s|
    ensures |r| == |s| - 1
    ensures forall k {:trigger r[k]} | 0 <= k < d :: r[k] == s[k]
    ensures forall k {:trigger r[k]} | d <= k < |r| :: r[k] == s[k + 1]
  {
    seq(|s| - 1, k requires 0 <= k < |s| - 1 => if k < d then s[k] else s[k + 1])
  }

  function Reversed<T>(s: seq<T>): (r: seq<T>)
    ensures |r| == |s|
    ensures forall i {:trigger r[i]} | 0 <= i < |r| :: r[i] == s[|s| - 1 - i]
  {
    seq(|s|, i requires 0 <= i < |s| => s[|s| - 1 - i])
  }

  /** Reversing twice changes nothing. */
  lemma ReverseTwice<T>(s: seq<T>)
    ensures Reversed(Reversed(s)) == s
  {
  }
}
