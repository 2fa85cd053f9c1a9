/** Facts about sequences used by the list models and the adapters. */
module Sequences {

  /** The elements of `s` in the opposite order. */
  function Reverse<T>(s: seq<T>): (r: seq<T>)
    ensures |r| == |s|
    ensures forall k :: 0 <= k < |s| ==> r[k] == s[|s| - 1 - k]
  {
    seq(|s|, k requires 0 <= k < |s| => s[|s| - 1 - k])
  }

  /** Reversal takes the last element first and then reverses the rest. */
  lemma ReverseFromBack<T>(s: seq<T>)
    requires s != []
    ensures Reverse(s) == [s[|s| - 1]] + Reverse(s[..|s| - 1])
  {
    var front := [s[|s| - 1]] + Reverse(s[..|s| - 1]);
    forall k | 0 <= k < |s|
      ensures Reverse(s)[k] == front[k]
    {
      if k > 0 {
        assert front[k] == Reverse(s[..|s| - 1])[k - 1];
      }
    }
  }

  /** A sequence that holds the elements of `b` back to front is the reversal of `b`. */
  lemma ReverseOf<T>(a: seq<T>, b: seq<T>)
    requires |a| == |b|
    requires forall m :: 0 <= m < |a| ==> a[m] == b[|b| - 1 - m]
    ensures a == Reverse(b)
  {
  }

  /** Reversing twice gives back the original sequence. */
  lemma ReverseReverse<T>(s: seq<T>)
    ensures Reverse(Reverse(s)) == s
  {
    assert forall k :: 0 <= k < |s| ==> Reverse(Reverse(s))[k] == s[k];
  }
}
