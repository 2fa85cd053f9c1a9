/** Handles into a node arena, and facts about sequences of them. */
module Arena {
  import opened Sequences

  /** A handle names one node slot of an arena; nodes are compared by handle, i.e. by identity. */
  type Handle = nat

  /** No handle occurs twice: a chain visits each node at most once. */
  ghost predicate Distinct(s: seq<Handle>)
  {
    forall p, q :: 0 <= p < q < |s| ==> s[p] != s[q]
  }

  /** In a sequence without repetitions, equal handles sit at equal indices. */
  lemma SameIndex(s: seq<Handle>, p: nat, q: nat)
    requires Distinct(s) && p < |s| && q < |s| && s[p] == s[q]
    ensures p == q
  {
  }

  /** Cutting out `s[i + 1..j]`, and optionally putting a handle that does not occur in `s`
      in its place, keeps a handle sequence free of repetitions. */
  lemma DistinctSplice(s: seq<Handle>, i: nat, j: nat, h: Handle)
    requires Distinct(s) && i < j <= |s| && h !in s
    ensures Distinct(s[..i + 1] + s[j..])
    ensures Distinct(s[..i + 1] + [h] + s[j..])
  {
    var cut := s[..i + 1] + s[j..];
    var put := s[..i + 1] + [h] + s[j..];
    assert forall m :: 0 <= m < |cut| ==> cut[m] == s[if m <= i then m else m - i - 1 + j];
    assert forall m :: 0 <= m < |put| && m != i + 1 ==> put[m] == s[if m <= i then m else m - i - 2 + j];
  }

  /** Reversal keeps a handle sequence free of repetitions. */
  lemma DistinctReverse(s: seq<Handle>)
    requires Distinct(s)
    ensures Distinct(Reverse(s))
  {
  }
}
