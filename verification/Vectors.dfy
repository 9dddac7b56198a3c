/** Reversal of sequences and of arrays in place. */
module Vectors {

  function Reversed<T>(s: seq<T>): (r: seq<T>)
    ensures |r| == |s|
    ensures forall i | 0 <= i < |s| :: r[i] == s[|s| - 1 - i]
  {
    seq(|s|, i requires 0 <= i < |s| => s[|s| - 1 - i])
  }

  lemma ReversedTail<T>(s: seq<T>)
    requires |s| > 0
    ensures Reversed(s) == Reversed(s[1..]) + [s[0]]
  {
  }

  method ReverseVector<T>(vec: array<T>)
    requires vec.Length > 0
    modifies vec
    ensures vec[..] == Reversed(old(vec[..]))
  {
    var start, end := 0, vec.Length - 1;
    while start < end
      invariant start + end == vec.Length - 1 && 0 <= start <= end + 1
      invariant forall k | 0 <= k < vec.Length ::
        vec[k] == old(vec[..])[if start <= k <= end then k else vec.Length - 1 - k]
    {
      vec[start], vec[end] := vec[end], vec[start];
      start := start + 1;
      end := end - 1;
    }
  }
}
