/** The node and list-object shapes shared by `SinglyLinkedList` and `SinglyCircularLinkList`
    (data_structures/link_list/link_list.py), with the two shape invariants and the
    traversal facts that follow from them. `Anchored`, `Contents` and the lemmas about
    payloads (`ContentsSplice`, `ContentsCut`, `ContentsReverse`, `ReverseTwice`) read the
    same as in `DoublyNodes`: the two node datatypes share no supertype, and stating them
    once over a payload projection would put a function value into every list contract. */
module SinglyNodes {
  import opened Wrappers
  import opened Arena
  import Sequences

  /** A `SinglyLinkedListNode`: its payload and the handle of its successor, if any. */
  datatype Node<T> = Node(data: T, next: Option<Handle>)

  /** A list object: the arena of every node ever allocated, the `head` handle, and the
      handle the allocator hands out next. Nodes a list no longer reaches stay in the arena. */
  datatype List<T> = List(heap: map<Handle, Node<T>>, head: Option<Handle>, free: Handle)

  /** `nodes` are live, pairwise distinct, below the allocation counter `free`, and `head`
      names the first of them (or is `None` when there are none). */
  ghost predicate Anchored<T>(l: List<T>, nodes: seq<Handle>)
  {
    && Distinct(nodes)
    && (forall k :: 0 <= k < |nodes| ==> nodes[k] in l.heap)
    && (forall h :: h in l.heap ==> h < l.free)
    && l.head == (if |nodes| == 0 then None else Some(nodes[0]))
  }

  /** `nodes` are anchored at `head` and each one's `next` is the one after it. */
  ghost predicate Chain<T>(l: List<T>, nodes: seq<Handle>)
  {
    && Anchored(l, nodes)
    && (forall k :: 0 <= k < |nodes| - 1 ==> l.heap[nodes[k]].next == Some(nodes[k + 1]))
  }

  /** The link out of the node at index `k` of a chain, when it is not the last one. */
  lemma LinkAt<T>(l: List<T>, nodes: seq<Handle>, k: nat)
    requires Chain(l, nodes) && k < |nodes|
    ensures k + 1 < |nodes| ==> l.heap[nodes[k]].next == Some(nodes[k + 1])
  {
  }

  /** The `SinglyLinkedList` invariant: a null-terminated chain from `head` through `nodes`. */
  ghost predicate Valid<T>(l: List<T>, nodes: seq<Handle>)
  {
    Chain(l, nodes) && (|nodes| > 0 ==> l.heap[nodes[|nodes| - 1]].next == None)
  }

  /** The `SinglyCircularLinkList` invariant: the last node links back to `head`. */
  ghost predicate Ring<T>(l: List<T>, nodes: seq<Handle>)
  {
    Chain(l, nodes) && (|nodes| > 0 ==> l.heap[nodes[|nodes| - 1]].next == Some(nodes[0]))
  }

  /** The payloads read along `nodes`: the abstract contents of the list. */
  ghost function Contents<T>(l: List<T>, nodes: seq<Handle>): (r: seq<T>)
    requires forall k :: 0 <= k < |nodes| ==> nodes[k] in l.heap
  {
    seq(|nodes|, k requires 0 <= k < |nodes| => l.heap[nodes[k]].data)
  }

  /** Payloads survive relinking: when every node of `nodes` keeps its payload from `l` to
      `r`, putting a node holding `x` in place of `nodes[i + 1..j]` puts `x` in place of the
      matching slice of the contents. */
  lemma ContentsSplice<T>(l: List<T>, r: List<T>, nodes: seq<Handle>, i: nat, j: nat, h: Handle, x: T,
                          spliced: seq<Handle>)
    requires forall k :: 0 <= k < |nodes| ==> nodes[k] in l.heap
    requires forall k :: 0 <= k < |nodes| ==> nodes[k] in r.heap && r.heap[nodes[k]].data == l.heap[nodes[k]].data
    requires i < j <= |nodes| && h in r.heap && r.heap[h].data == x
    requires spliced == nodes[..i + 1] + [h] + nodes[j..]
    ensures forall k :: 0 <= k < |spliced| ==> spliced[k] in r.heap
    ensures Contents(r, spliced) == Contents(l, nodes)[..i + 1] + [x] + Contents(l, nodes)[j..]
  {
    forall m | 0 <= m < |spliced|
      ensures spliced[m] in r.heap
    {
      if m <= i {
        assert spliced[m] == nodes[m];
      } else if m > i + 1 {
        assert spliced[m] == nodes[j + m - i - 2];
      }
    }
    var before := Contents(l, nodes);
    forall m | 0 <= m < |spliced|
      ensures Contents(r, spliced)[m] == (before[..i + 1] + [x] + before[j..])[m]
    {
      if m <= i {
        assert spliced[m] == nodes[m];
      } else if m > i + 1 {
        assert spliced[m] == nodes[j + m - i - 2];
      }
    }
  }

  /** Payloads survive relinking: when every node of `nodes` keeps its payload from `l` to
      `r`, cutting `nodes[i + 1..j]` out cuts the matching slice out of the contents. */
  lemma ContentsCut<T>(l: List<T>, r: List<T>, nodes: seq<Handle>, i: nat, j: nat, kept: seq<Handle>)
    requires forall k :: 0 <= k < |nodes| ==> nodes[k] in l.heap
    requires forall k :: 0 <= k < |nodes| ==> nodes[k] in r.heap && r.heap[nodes[k]].data == l.heap[nodes[k]].data
    requires i < j <= |nodes|
    requires kept == nodes[..i + 1] + nodes[j..]
    ensures forall k :: 0 <= k < |kept| ==> kept[k] in r.heap
    ensures Contents(r, kept) == Contents(l, nodes)[..i + 1] + Contents(l, nodes)[j..]
  {
    forall m | 0 <= m < |kept|
      ensures kept[m] in r.heap
    {
      if m <= i {
        assert kept[m] == nodes[m];
      } else {
        assert kept[m] == nodes[j + m - i - 1];
      }
    }
    var before := Contents(l, nodes);
    forall m | 0 <= m < |kept|
      ensures Contents(r, kept)[m] == (before[..i + 1] + before[j..])[m]
    {
      if m <= i {
        assert kept[m] == nodes[m];
      } else {
        assert kept[m] == nodes[j + m - i - 1];
      }
    }
  }

  /** Payloads survive relinking: when every node of `nodes` keeps its payload from `l` to
      `r`, reading `nodes` backwards in `r` gives the contents of `l` reversed. */
  lemma ContentsReverse<T>(l: List<T>, r: List<T>, nodes: seq<Handle>)
    requires forall k :: 0 <= k < |nodes| ==> nodes[k] in l.heap
    requires forall k :: 0 <= k < |nodes| ==> nodes[k] in r.heap && r.heap[nodes[k]].data == l.heap[nodes[k]].data
    ensures Contents(r, Sequences.Reverse(nodes)) == Sequences.Reverse(Contents(l, nodes))
  {
    var rev := Sequences.Reverse(nodes);
    forall m | 0 <= m < |rev|
      ensures rev[m] in r.heap
    {
      assert rev[m] == nodes[|nodes| - 1 - m];
    }
    var before := Contents(l, nodes);
    var after := Contents(r, rev);
    forall m | 0 <= m < |rev|
      ensures after[m] == before[|nodes| - 1 - m]
    {
      assert rev[m] == nodes[|nodes| - 1 - m];
    }
    Sequences.ReverseOf(after, before);
  }

  /** `reverse` undoes itself: two lists each reading the previous one back to front, as
      `reverse` leaves it, make the second one read like the first again, from the same head. */
  lemma ReverseTwice<T>(l: List<T>, once: List<T>, twice: List<T>, nodes: seq<Handle>)
    requires Chain(l, nodes) && Chain(once, Sequences.Reverse(nodes))
    requires Chain(twice, Sequences.Reverse(Sequences.Reverse(nodes)))
    requires Contents(once, Sequences.Reverse(nodes)) == Sequences.Reverse(Contents(l, nodes))
    requires Contents(twice, Sequences.Reverse(Sequences.Reverse(nodes)))
             == Sequences.Reverse(Contents(once, Sequences.Reverse(nodes)))
    ensures Chain(twice, nodes) && twice.head == l.head
    ensures Contents(twice, nodes) == Contents(l, nodes)
  {
    Sequences.ReverseReverse(nodes);
    Sequences.ReverseReverse(Contents(l, nodes));
  }

  /** The new, empty list object both list classes start from. */
  function New<T>(): (r: List<T>)
    ensures Valid(r, []) && Ring(r, [])
    ensures forall nodes :: Valid(r, nodes) ==> nodes == []
    ensures forall nodes :: Ring(r, nodes) ==> nodes == []
  {
    List(map[], None, 0)
  }

  /** Where following `next` exactly `k` times from `from` leads; `None` once a link is absent. */
  function Walk<T>(heap: map<Handle, Node<T>>, from: Option<Handle>, k: nat): (r: Option<Handle>)
    decreases k
  {
    if k == 0 then from
    else match from
      case None => None
      case Some(h) => if h in heap then Walk(heap, heap[h].next, k - 1) else None
  }

  lemma {:induction false} WalkChain<T>(l: List<T>, nodes: seq<Handle>, p: nat, k: nat)
    requires Valid(l, nodes) && p < |nodes| && p + k <= |nodes|
    ensures Walk(l.heap, Some(nodes[p]), k) == if p + k < |nodes| then Some(nodes[p + k]) else None
    decreases k
  {
    if k > 0 && p + 1 < |nodes| {
      WalkChain(l, nodes, p + 1, k - 1);
    }
  }

  /** A valid linear list terminates: the k-th step from `head` is `nodes[k]`, and the
      `|nodes|`-th step finds no further link. */
  lemma Terminates<T>(l: List<T>, nodes: seq<Handle>)
    requires Valid(l, nodes)
    ensures forall k :: 0 <= k < |nodes| ==> Walk(l.heap, l.head, k) == Some(nodes[k])
    ensures Walk(l.heap, l.head, |nodes|) == None
  {
    if |nodes| > 0 {
      forall k | 0 <= k <= |nodes| {
        WalkChain(l, nodes, 0, k);
      }
    }
  }

  lemma {:induction false} WalkRing<T>(l: List<T>, nodes: seq<Handle>, p: nat, k: nat)
    requires Ring(l, nodes) && p < |nodes| && k <= |nodes|
    ensures Walk(l.heap, Some(nodes[p]), k)
            == Some(if p + k < |nodes| then nodes[p + k] else nodes[p + k - |nodes|])
    decreases k
  {
    if k > 0 {
      if p + 1 < |nodes| {
        WalkRing(l, nodes, p + 1, k - 1);
      } else {
        WalkRing(l, nodes, 0, k - 1);
      }
    }
  }

  /** In a ring, starting from any node and following `next` exactly `|nodes|` times returns
      to that node, and every fewer positive number of steps lands on a different node. */
  lemma RingReturns<T>(l: List<T>, nodes: seq<Handle>, p: nat)
    requires Ring(l, nodes) && p < |nodes|
    ensures Walk(l.heap, Some(nodes[p]), |nodes|) == Some(nodes[p])
    ensures forall k :: 0 < k < |nodes| ==> Walk(l.heap, Some(nodes[p]), k) != Some(nodes[p])
  {
    WalkRing(l, nodes, p, |nodes|);
    forall k | 0 < k < |nodes|
      ensures Walk(l.heap, Some(nodes[p]), k) != Some(nodes[p])
    {
      WalkRing(l, nodes, p, k);
    }
  }

  /** The handle sequence of a valid linear list is determined by the arena and `head`,
      so its contents are too. */
  lemma ValidUnique<T>(l: List<T>, nodes: seq<Handle>, others: seq<Handle>)
    requires Valid(l, nodes) && Valid(l, others)
    ensures nodes == others
  {
    Terminates(l, nodes);
    Terminates(l, others);
  }

  /** The handle sequence of a ring is determined by the arena and `head`. */
  lemma RingUnique<T>(l: List<T>, nodes: seq<Handle>, others: seq<Handle>)
    requires Ring(l, nodes) && Ring(l, others)
    ensures nodes == others
  {
    if |nodes| > 0 && |others| > 0 {
      var m := if |nodes| < |others| then |nodes| else |others|;
      forall k | 0 <= k < m
        ensures nodes[k] == others[k]
      {
        WalkRing(l, nodes, 0, k);
        WalkRing(l, others, 0, k);
      }
      // Both chains leave their common node `m - 1` by the same link, so each wraps back
      // to the shared head exactly there.
      var q := if m < |others| then m else 0;
      var q' := if m < |nodes| then m else 0;
      LinkAt(l, others, m - 1);
      LinkAt(l, nodes, m - 1);
      SameIndex(others, 0, q);
      SameIndex(nodes, 0, q');
    }
  }
}
