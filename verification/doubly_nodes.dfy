/** The node and list-object shapes shared by `DoublyLinkedList` and `DoublyCircularLinkList`
    (data_structures/link_list/link_list.py), with the two shape invariants and the
    traversal facts that follow from them. `Anchored`, `Contents` and the lemmas about
    payloads read the same as in `SinglyNodes`, for the reason given there. */
module DoublyNodes {
  import opened Wrappers
  import opened Arena
  import Sequences

  /** A `DoublyLinkedListNode`: its payload and the handles of its neighbours, if any. */
  datatype Node<T> = Node(data: T, prev: Option<Handle>, next: Option<Handle>)

  /** A list object: the arena of every node ever allocated, the `head` handle, and the
      handle the allocator hands out next. Nodes a list no longer reaches stay in the arena. */
  datatype List<T> = List(heap: map<Handle, Node<T>>, head: Option<Handle>, free: Handle)

  /** The node with its two links exchanged, as `reverse` leaves every node. */
  function Swapped<T>(n: Node<T>): (r: Node<T>)
  {
    n.(prev := n.next, next := n.prev)
  }

  /** `nodes` are live, pairwise distinct, below the allocation counter `free`, and `head`
      names the first of them (or is `None` when there are none). */
  ghost predicate Anchored<T>(l: List<T>, nodes: seq<Handle>)
  {
    && Distinct(nodes)
    && (forall k :: 0 <= k < |nodes| ==> nodes[k] in l.heap)
    && (forall h :: h in l.heap ==> h < l.free)
    && l.head == (if |nodes| == 0 then None else Some(nodes[0]))
  }

  /** `nodes` are anchored at `head` and every two consecutive ones link to each other in
      both directions. */
  ghost predicate Chain<T>(l: List<T>, nodes: seq<Handle>)
  {
    && Anchored(l, nodes)
    && (forall k :: 0 <= k < |nodes| - 1 ==>
          l.heap[nodes[k]].next == Some(nodes[k + 1]) && l.heap[nodes[k + 1]].prev == Some(nodes[k]))
  }

  /** The links between the node at index `k` of a chain and the one after it. */
  lemma LinkAt<T>(l: List<T>, nodes: seq<Handle>, k: nat)
    requires Chain(l, nodes) && k < |nodes|
    ensures k + 1 < |nodes| ==> l.heap[nodes[k]].next == Some(nodes[k + 1])
    ensures k + 1 < |nodes| ==> l.heap[nodes[k + 1]].prev == Some(nodes[k])
  {
  }

  /** The `DoublyLinkedList` invariant: the first node has no `prev` and the last no `next`. */
  ghost predicate Valid<T>(l: List<T>, nodes: seq<Handle>)
  {
    && Chain(l, nodes)
    && (|nodes| > 0 ==> l.heap[nodes[0]].prev == None && l.heap[nodes[|nodes| - 1]].next == None)
  }

  /** The `DoublyCircularLinkList` invariant: the forward ring closes from the last node back to
      `head`, and the backward ring from `head` back to the last node. */
  ghost predicate Ring<T>(l: List<T>, nodes: seq<Handle>)
  {
    && Chain(l, nodes)
    && (|nodes| > 0 ==>
          l.heap[nodes[|nodes| - 1]].next == Some(nodes[0]) && l.heap[nodes[0]].prev == Some(nodes[|nodes| - 1]))
  }

  /** The payloads read along `nodes`: the abstract contents of the list. */
  ghost function Contents<T>(l: List<T>, nodes: seq<Handle>): (r: seq<T>)
    requires forall k :: 0 <= k < |nodes| ==> nodes[k] in l.heap
  {
    seq(|nodes|, k requires 0 <= k < |nodes| => l.heap[nodes[k]].data)
  }

  /** Payloads survive relinking: when every node of `nodes` keeps its payload from `l` to
      `r`, putting a node holding `x` in place of `nodes[i + 1..j]` puts `x` in place of the
      matching slice of the contents. */
  lemma ContentsSplice<T>(l: List<T>, r: List<T>, nodes: seq<Handle>, i: nat, j: nat, h: Handle, x: T,
                          spliced: seq<Handle>)
    requires forall k :: 0 <= k < |nodes| ==> nodes[k] in l.heap
    requires forall k :: 0 <= k < |nodes| ==> nodes[k] in r.heap && r.heap[nodes[k]].data == l.heap[nodes[k]].data
    requires i < j <= |nodes| && h in r.heap && r.heap[h].data == x
    requires spliced == nodes[..i + 1] + [h] + nodes[j..]
    ensures forall k :: 0 <= k < |spliced| ==> spliced[k] in r.heap
    ensures Contents(r, spliced) == Contents(l, nodes)[..i + 1] + [x] + Contents(l, nodes)[j..]
  {
    forall m | 0 <= m < |spliced|
      ensures spliced[m] in r.heap
    {
      if m <= i {
        assert spliced[m] == nodes[m];
      } else if m > i + 1 {
        assert spliced[m] == nodes[j + m - i - 2];
      }
    }
    var before := Contents(l, nodes);
    forall m | 0 <= m < |spliced|
      ensures Contents(r, spliced)[m] == (before[..i + 1] + [x] + before[j..])[m]
    {
      if m <= i {
        assert spliced[m] == nodes[m];
      } else if m > i + 1 {
        assert spliced[m] == nodes[j + m - i - 2];
      }
    }
  }

  /** Payloads survive relinking: when every node of `nodes` keeps its payload from `l` to
      `r`, cutting `nodes[i + 1..j]` out cuts the matching slice out of the contents. */
  lemma ContentsCut<T>(l: List<T>, r: List<T>, nodes: seq<Handle>, i: nat, j: nat, kept: seq<Handle>)
    requires forall k :: 0 <= k < |nodes| ==> nodes[k] in l.heap
    requires forall k :: 0 <= k < |nodes| ==> nodes[k] in r.heap && r.heap[nodes[k]].data == l.heap[nodes[k]].data
    requires i < j <= |nodes|
    requires kept == nodes[..i + 1] + nodes[j..]
    ensures forall k :: 0 <= k < |kept| ==> kept[k] in r.heap
    ensures Contents(r, kept) == Contents(l, nodes)[..i + 1] + Contents(l, nodes)[j..]
  {
    forall m | 0 <= m < |kept|
      ensures kept[m] in r.heap
    {
      if m <= i {
        assert kept[m] == nodes[m];
      } else {
        assert kept[m] == nodes[j + m - i - 1];
      }
    }
    var before := Contents(l, nodes);
    forall m | 0 <= m < |kept|
      ensures Contents(r, kept)[m] == (before[..i + 1] + before[j..])[m]
    {
      if m <= i {
        assert kept[m] == nodes[m];
      } else {
        assert kept[m] == nodes[j + m - i - 1];
      }
    }
  }

  /** Payloads survive relinking: when every node of `nodes` keeps its payload from `l` to
      `r`, reading `nodes` backwards in `r` gives the contents of `l` reversed. */
  lemma ContentsReverse<T>(l: List<T>, r: List<T>, nodes: seq<Handle>)
    requires forall k :: 0 <= k < |nodes| ==> nodes[k] in l.heap
    requires forall k :: 0 <= k < |nodes| ==> nodes[k] in r.heap && r.heap[nodes[k]].data == l.heap[nodes[k]].data
    ensures Contents(r, Sequences.Reverse(nodes)) == Sequences.Reverse(Contents(l, nodes))
  {
    var rev := Sequences.Reverse(nodes);
    forall m | 0 <= m < |rev|
      ensures rev[m] in r.heap
    {
      assert rev[m] == nodes[|nodes| - 1 - m];
    }
    var before := Contents(l, nodes);
    var after := Contents(r, rev);
    forall m | 0 <= m < |rev|
      ensures after[m] == before[|nodes| - 1 - m]
    {
      assert rev[m] == nodes[|nodes| - 1 - m];
    }
    Sequences.ReverseOf(after, before);
  }

  /** Once every node of a valid list or a ring has its two links exchanged and the old last
      node is the head, the list reads the other way round in both directions and keeps its
      shape. */
  lemma AllSwapped<T>(l: List<T>, nodes: seq<Handle>, r: List<T>)
    requires Valid(l, nodes) || Ring(l, nodes)
    requires |nodes| > 0
    requires r.free == l.free && r.heap.Keys == l.heap.Keys && r.head == Some(nodes[|nodes| - 1])
    requires forall m :: 0 <= m < |nodes| ==> r.heap[nodes[m]] == Swapped(l.heap[nodes[m]])
    ensures Valid(l, nodes) ==> Valid(r, Sequences.Reverse(nodes))
    ensures Ring(l, nodes) ==> Ring(r, Sequences.Reverse(nodes))
    ensures Contents(r, Sequences.Reverse(nodes)) == Sequences.Reverse(Contents(l, nodes))
  {
    SwappedChain(l, nodes, r);
    ContentsReverse(l, r, nodes);
  }

  lemma SwappedChain<T>(l: List<T>, nodes: seq<Handle>, r: List<T>)
    requires Chain(l, nodes)
    requires |nodes| > 0
    requires r.free == l.free && r.heap.Keys == l.heap.Keys && r.head == Some(nodes[|nodes| - 1])
    requires forall m :: 0 <= m < |nodes| ==> r.heap[nodes[m]] == Swapped(l.heap[nodes[m]])
    ensures Chain(r, Sequences.Reverse(nodes))
  {
    DistinctReverse(nodes);
    var rev := Sequences.Reverse(nodes);
    forall p | 0 <= p < |rev| - 1
      ensures r.heap[rev[p]].next == Some(rev[p + 1]) && r.heap[rev[p + 1]].prev == Some(rev[p])
    {
      LinkAt(l, nodes, |nodes| - 2 - p);
    }
  }

  /** A ring read from its last node: moving `head` one node back turns the handle sequence
      `s + [a]` into `[a] + s`, with the same arena. */
  lemma RingRotate<T>(l: List<T>, s: seq<Handle>, a: Handle)
    requires Ring(l, s + [a])
    ensures Ring(l.(head := Some(a)), [a] + s)
    ensures Contents(l.(head := Some(a)), [a] + s) == [l.heap[a].data] + Contents(l, s + [a])[..|s|]
  {
    var before := s + [a];
    var after := [a] + s;
    assert forall k :: 0 <= k < |after| ==> after[k] == before[if k == 0 then |s| else k - 1];
    forall k | 0 <= k < |after| - 1
      ensures l.heap[after[k]].next == Some(after[k + 1]) && l.heap[after[k + 1]].prev == Some(after[k])
    {
      if k == 0 {
        assert after[1] == before[0];
      } else {
        LinkAt(l, before, k - 1);
      }
    }
    if s != [] {
      LinkAt(l, before, |s| - 1);
    }
  }

  /** `reverse` undoes itself: two lists each reading the previous one back to front, as
      `reverse` leaves it, make the second one read like the first again, from the same head. */
  lemma ReverseTwice<T>(l: List<T>, once: List<T>, twice: List<T>, nodes: seq<Handle>)
    requires Chain(l, nodes) && Chain(once, Sequences.Reverse(nodes))
    requires Chain(twice, Sequences.Reverse(Sequences.Reverse(nodes)))
    requires Contents(once, Sequences.Reverse(nodes)) == Sequences.Reverse(Contents(l, nodes))
    requires Contents(twice, Sequences.Reverse(Sequences.Reverse(nodes)))
             == Sequences.Reverse(Contents(once, Sequences.Reverse(nodes)))
    ensures Chain(twice, nodes) && twice.head == l.head
    ensures Contents(twice, nodes) == Contents(l, nodes)
  {
    Sequences.ReverseReverse(nodes);
    Sequences.ReverseReverse(Contents(l, nodes));
  }

  /** The new, empty list object both list classes start from. */
  function New<T>(): (r: List<T>)
    ensures Valid(r, []) && Ring(r, [])
    ensures forall nodes :: Valid(r, nodes) ==> nodes == []
    ensures forall nodes :: Ring(r, nodes) ==> nodes == []
  {
    List(map[], None, 0)
  }

  /** Where following `next` (when `forward`) or `prev` exactly `k` times from `from` leads;
      `None` once a link is absent. */
  function Walk<T>(heap: map<Handle, Node<T>>, from: Option<Handle>, forward: bool, k: nat): (r: Option<Handle>)
    decreases k
  {
    if k == 0 then from
    else match from
      case None => None
      case Some(h) =>
        if h in heap then Walk(heap, if forward then heap[h].next else heap[h].prev, forward, k - 1)
        else None
  }

  lemma {:induction false} WalkForward<T>(l: List<T>, nodes: seq<Handle>, p: nat, k: nat)
    requires Valid(l, nodes) && p < |nodes| && p + k <= |nodes|
    ensures Walk(l.heap, Some(nodes[p]), true, k) == if p + k < |nodes| then Some(nodes[p + k]) else None
    decreases k
  {
    if k > 0 && p + 1 < |nodes| {
      WalkForward(l, nodes, p + 1, k - 1);
    }
  }

  lemma {:induction false} WalkBackward<T>(l: List<T>, nodes: seq<Handle>, p: nat, k: nat)
    requires Valid(l, nodes) && p < |nodes| && k <= p + 1
    ensures Walk(l.heap, Some(nodes[p]), false, k) == if k <= p then Some(nodes[p - k]) else None
    decreases k
  {
    if k > 0 && p > 0 {
      LinkAt(l, nodes, p - 1);
      WalkBackward(l, nodes, p - 1, k - 1);
    }
  }

  /** A valid doubly linked list can be read both ways: forward from `head` it visits
      `nodes` in order and then finds no link; backward from the last node it visits them in
      reverse order and then finds no link. */
  lemma Traversals<T>(l: List<T>, nodes: seq<Handle>)
    requires Valid(l, nodes) && |nodes| > 0
    ensures forall k :: 0 <= k < |nodes| ==> Walk(l.heap, l.head, true, k) == Some(nodes[k])
    ensures Walk(l.heap, l.head, true, |nodes|) == None
    ensures forall k :: 0 <= k < |nodes| ==>
              Walk(l.heap, Some(nodes[|nodes| - 1]), false, k) == Some(Sequences.Reverse(nodes)[k])
    ensures Walk(l.heap, Some(nodes[|nodes| - 1]), false, |nodes|) == None
  {
    forall k | 0 <= k <= |nodes| {
      WalkForward(l, nodes, 0, k);
    }
    var last := nodes[|nodes| - 1];
    forall k: nat | k <= |nodes|
      ensures Walk(l.heap, Some(last), false, k)
              == if k < |nodes| then Some(nodes[|nodes| - 1 - k]) else None
    {
      WalkBackward(l, nodes, |nodes| - 1, k);
    }
  }

  /** The handle sequence of a valid doubly linked list is determined by the arena and
      `head`, so its contents are too. */
  lemma ValidUnique<T>(l: List<T>, nodes: seq<Handle>, others: seq<Handle>)
    requires Valid(l, nodes) && Valid(l, others)
    ensures nodes == others
  {
    if |nodes| > 0 && |others| > 0 {
      Traversals(l, nodes);
      Traversals(l, others);
      assert Walk(l.heap, l.head, true, |nodes|) == None;
      assert Walk(l.heap, l.head, true, |others|) == None;
      forall k | 0 <= k < |nodes|
        ensures nodes[k] == others[k]
      {
        assert Walk(l.heap, l.head, true, k) == Some(nodes[k]);
      }
    }
  }

  /** The handle sequence of a doubly circular list is determined by the arena and `head`. */
  lemma RingUnique<T>(l: List<T>, nodes: seq<Handle>, others: seq<Handle>)
    requires Ring(l, nodes) && Ring(l, others)
    ensures nodes == others
  {
    if |nodes| > 0 && |others| > 0 {
      var m := if |nodes| < |others| then |nodes| else |others|;
      forall k | 0 <= k < m
        ensures nodes[k] == others[k]
      {
        WalkRing(l, nodes, 0, k);
        WalkRing(l, others, 0, k);
      }
      // Both chains leave their common node `m - 1` by the same link, so each wraps back
      // to the shared head exactly there.
      var q := if m < |others| then m else 0;
      var q' := if m < |nodes| then m else 0;
      LinkAt(l, others, m - 1);
      LinkAt(l, nodes, m - 1);
      SameIndex(others, 0, q);
      SameIndex(nodes, 0, q');
    }
  }

  /** In a valid list or a ring, `a.next == b` holds exactly when `b.prev == a`. */
  lemma LinksAgree<T>(l: List<T>, nodes: seq<Handle>)
    requires Valid(l, nodes) || Ring(l, nodes)
    ensures forall p, q :: 0 <= p < |nodes| && 0 <= q < |nodes| ==>
              (l.heap[nodes[p]].next == Some(nodes[q]) <==> l.heap[nodes[q]].prev == Some(nodes[p]))
  {
    forall p, q | 0 <= p < |nodes| && 0 <= q < |nodes|
      ensures l.heap[nodes[p]].next == Some(nodes[q]) <==> l.heap[nodes[q]].prev == Some(nodes[p])
    {
      LinkAt(l, nodes, p);
      if q > 0 {
        LinkAt(l, nodes, q - 1);
      }
    }
  }

  lemma {:induction false} WalkRing<T>(l: List<T>, nodes: seq<Handle>, p: nat, k: nat)
    requires Ring(l, nodes) && p < |nodes| && k <= |nodes|
    ensures Walk(l.heap, Some(nodes[p]), true, k)
            == Some(if p + k < |nodes| then nodes[p + k] else nodes[p + k - |nodes|])
    decreases k
  {
    if k > 0 {
      if p + 1 < |nodes| {
        WalkRing(l, nodes, p + 1, k - 1);
      } else {
        WalkRing(l, nodes, 0, k - 1);
      }
    }
  }

  lemma {:induction false} WalkRingBack<T>(l: List<T>, nodes: seq<Handle>, p: nat, k: nat)
    requires Ring(l, nodes) && p < |nodes| && k <= |nodes|
    ensures Walk(l.heap, Some(nodes[p]), false, k)
            == Some(if k <= p then nodes[p - k] else nodes[p + |nodes| - k])
    decreases k
  {
    if k > 0 {
      if p > 0 {
        LinkAt(l, nodes, p - 1);
        WalkRingBack(l, nodes, p - 1, k - 1);
      } else {
        WalkRingBack(l, nodes, |nodes| - 1, k - 1);
      }
    }
  }

  /** In a doubly circular list both rings close: from any node, exactly `|nodes|` steps
      along `next`, or along `prev`, lead back to it, and no fewer positive number does. */
  lemma RingsReturn<T>(l: List<T>, nodes: seq<Handle>, p: nat)
    requires Ring(l, nodes) && p < |nodes|
    ensures Walk(l.heap, Some(nodes[p]), true, |nodes|) == Some(nodes[p])
    ensures Walk(l.heap, Some(nodes[p]), false, |nodes|) == Some(nodes[p])
    ensures forall k :: 0 < k < |nodes| ==> Walk(l.heap, Some(nodes[p]), true, k) != Some(nodes[p])
    ensures forall k :: 0 < k < |nodes| ==> Walk(l.heap, Some(nodes[p]), false, k) != Some(nodes[p])
  {
    WalkRing(l, nodes, p, |nodes|);
    WalkRingBack(l, nodes, p, |nodes|);
    forall k | 0 < k < |nodes|
      ensures Walk(l.heap, Some(nodes[p]), true, k) != Some(nodes[p])
      ensures Walk(l.heap, Some(nodes[p]), false, k) != Some(nodes[p])
    {
      WalkRing(l, nodes, p, k);
      WalkRingBack(l, nodes, p, k);
    }
  }
}
