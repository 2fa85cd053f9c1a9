/** `SinglyCircularLinkList` (data_structures/link_list/link_list.py:112-179): the
    operations it overrides. `is_empty`, `add_in_between` and `remove_in_between` are
    inherited from `SinglyLinkedList`; their contracts in `SinglyLinked` cover the ring. */
module SinglyCircular {
  import opened Wrappers
  import opened Arena
  import Sequences
  import opened SinglyNodes

  /** The handles of a ring after `AddFirst` allocated `node`: the head keeps its identity and
      the new node sits right after it. */
  ghost function AddFirstNodes(nodes: seq<Handle>, node: Handle): (r: seq<Handle>)
  {
    if nodes == [] then [node] else [nodes[0], node] + nodes[1..]
  }

  /** On an empty list the new node becomes a one-node ring. Otherwise the head node keeps
      its identity and takes `x`, and a new node after it takes over the old head payload. */
  function AddFirst<T>(l: List<T>, x: T, ghost nodes: seq<Handle>): (r: List<T>)
    requires Ring(l, nodes)
    ensures Ring(r, AddFirstNodes(nodes, l.free))
    ensures Contents(r, AddFirstNodes(nodes, l.free)) == [x] + Contents(l, nodes)
    ensures |nodes| > 0 ==> r.head == l.head && l.free in r.heap && r.heap[l.free].data == l.heap[nodes[0]].data
  {
    if l.head.None? then
      List(l.heap[l.free := Node(x, Some(l.free))], Some(l.free), l.free + 1)
    else
      var h := l.head.value;
      var heap := l.heap[l.free := Node(l.heap[h].data, l.heap[h].next)];
      List(heap[h := Node(x, Some(l.free))], l.head, l.free + 1)
  }

  /** Walks to the node whose successor is `head` and links a new node holding `x`, whose
      successor is `head`, after it; on an empty list the new node becomes a one-node ring. */
  method AddLast<T>(l: List<T>, x: T, ghost nodes: seq<Handle>) returns (r: List<T>)
    requires Ring(l, nodes)
    ensures Ring(r, nodes + [l.free])
    ensures Contents(r, nodes + [l.free]) == Contents(l, nodes) + [x]
  {
    var node := l.free;
    var heap := l.heap[node := Node(x, l.head)];
    if l.head.Some? {
      var cur := l.head.value;
      ghost var k := 0;
      while true
        invariant 0 <= k < |nodes| && cur == nodes[k]
        decreases |nodes| - k
      {
        if l.head == l.heap[cur].next {
          break;
        }
        LinkAt(l, nodes, k);
        cur := l.heap[cur].next.value;
        k := k + 1;
      }
      LinkAt(l, nodes, k);
      heap := heap[cur := l.heap[cur].(next := Some(node))];
      r := List(heap, l.head, node + 1);
      ghost var grown := nodes + [node];
      forall m | 0 <= m < |grown| - 1
        ensures r.heap[grown[m]].next == Some(grown[m + 1])
      {
        if m < |nodes| - 1 {
          assert grown[m] == nodes[m] && grown[m + 1] == nodes[m + 1];
        }
      }
    } else {
      r := List(heap[node := Node(x, Some(node))], Some(node), node + 1);
    }
  }

  /** On a ring of two or more nodes the head node keeps its identity and takes the second
      node's payload and link, and the old head payload is returned. On a one-node ring the
      payload is returned but the ring is left as it was; on an empty list, `None`. */
  function RemoveFirst<T>(l: List<T>, ghost nodes: seq<Handle>): (r: (List<T>, Option<T>))
    requires Ring(l, nodes)
    ensures |nodes| == 0 ==> r == (l, None)
    ensures |nodes| > 0 ==> r.1 == Some(Contents(l, nodes)[0])
    ensures |nodes| == 1 ==> r.0 == l
    ensures |nodes| >= 2 ==> r.0.head == l.head && Ring(r.0, [nodes[0]] + nodes[2..])
    ensures |nodes| >= 2 ==> Contents(r.0, [nodes[0]] + nodes[2..]) == Contents(l, nodes)[1..]
  {
    if l.head.None? then (l, None)
    else
      var h := l.head.value;
      LinkAt(l, nodes, 0);
      var second := l.heap[l.heap[h].next.value];
      (l.(heap := l.heap[h := Node(second.data, second.next)]), Some(l.heap[h].data))
  }

  /** Walks to the node two links before `head`, relinks it to `head` and returns the payload
      of the node it skipped. On a one-node ring that payload is the head's own and the ring
      is left as it was; on an empty list, `None`. */
  method RemoveLast<T>(l: List<T>, ghost nodes: seq<Handle>) returns (r: List<T>, v: Option<T>)
    requires Ring(l, nodes)
    ensures |nodes| == 0 ==> r == l && v == None
    ensures |nodes| > 0 ==> v == Some(Contents(l, nodes)[|nodes| - 1])
    ensures |nodes| == 1 ==> r == l
    ensures |nodes| >= 2 ==> Ring(r, nodes[..|nodes| - 1])
    ensures |nodes| >= 2 ==> Contents(r, nodes[..|nodes| - 1]) == Contents(l, nodes)[..|nodes| - 1]
  {
    if l.head.None? {
      return l, None;
    }
    var cur := l.head.value;
    ghost var k := 0;
    while true
      invariant 0 <= k < |nodes| && cur == nodes[k]
      invariant |nodes| >= 2 ==> k <= |nodes| - 2
      decreases |nodes| - k
    {
      LinkAt(l, nodes, k);
      LinkAt(l, nodes, (k + 1) % |nodes|);
      if l.head == l.heap[l.heap[cur].next.value].next {
        break;
      }
      cur := l.heap[cur].next.value;
      k := k + 1;
    }
    LinkAt(l, nodes, k);
    v := Some(l.heap[l.heap[cur].next.value].data);
    r := l.(heap := l.heap[cur := l.heap[cur].(next := l.head)]);
    if |nodes| >= 2 {
      ghost var q := if k + 2 < |nodes| then k + 2 else 0;
      LinkAt(l, nodes, k + 1);
      SameIndex(nodes, 0, q);
      LastUnlinked(l, nodes, r);
    }
  }

  /** The effect of `remove_last`'s write on a ring of two or more nodes: the node before the
      last one links to `head`, closing the ring without the last node. */
  lemma LastUnlinked<T>(l: List<T>, nodes: seq<Handle>, r: List<T>)
    requires Ring(l, nodes) && |nodes| >= 2
    requires var cur := nodes[|nodes| - 2];
             r == l.(heap := l.heap[cur := l.heap[cur].(next := l.head)])
    ensures Ring(r, nodes[..|nodes| - 1])
    ensures Contents(r, nodes[..|nodes| - 1]) == Contents(l, nodes)[..|nodes| - 1]
  {
    ghost var kept := nodes[..|nodes| - 1];
    forall m | 0 <= m < |kept| - 1
      ensures r.heap[kept[m]].next == Some(kept[m + 1])
    {
      LinkAt(l, nodes, m);
      assert kept[m] == nodes[m] && kept[m + 1] == nodes[m + 1] && nodes[m] != nodes[|nodes| - 2];
    }
    ContentsCut(l, r, nodes, |nodes| - 2, |nodes|, kept);
  }

  /** Turns every link around while walking to the node whose successor is `head`, then turns
      that last node's link and re-closes the ring from the old head to it; the old last node
      becomes the head. A one-node ring is left as it was. */
  method Reverse<T>(l: List<T>, ghost nodes: seq<Handle>) returns (r: List<T>)
    requires Ring(l, nodes)
    ensures Ring(r, Sequences.Reverse(nodes))
    ensures Contents(r, Sequences.Reverse(nodes)) == Sequences.Reverse(Contents(l, nodes))
  {
    if l.head.None? {
      return l;
    }
    var heap := l.heap;
    var cur := l.head.value;
    var prev: Option<Handle> := None;
    ghost var k := 0;
    while true
      invariant 0 <= k < |nodes| && cur == nodes[k]
      invariant prev == (if k == 0 then None else Some(nodes[k - 1]))
      invariant heap.Keys == l.heap.Keys
      invariant forall m :: 0 <= m < |nodes| ==> heap[nodes[m]].data == l.heap[nodes[m]].data
      invariant forall m :: k <= m < |nodes| ==> heap[nodes[m]] == l.heap[nodes[m]]
      invariant forall m :: 0 < m < k ==> heap[nodes[m]].next == Some(nodes[m - 1])
      invariant k > 0 ==> heap[nodes[0]].next == None
      decreases |nodes| - k
    {
      if l.head == heap[cur].next {
        break;
      }
      LinkAt(l, nodes, k);
      var next := heap[cur].next.value;
      heap := heap[cur := heap[cur].(next := prev)];
      prev, cur := Some(cur), next;
      k := k + 1;
    }
    LinkAt(l, nodes, k);
    ghost var q := if k + 1 < |nodes| then k + 1 else 0;
    SameIndex(nodes, 0, q);
    ghost var turned := heap;
    var next := heap[cur].next.value;
    heap := heap[cur := heap[cur].(next := prev)];
    prev, cur := Some(cur), next;
    heap := heap[cur := heap[cur].(next := prev)];
    r := List(heap, prev, l.free);
    RingTurned(l, nodes, turned, r);
  }

  /** The arena `reverse` has when it reaches the last node: every node strictly between the
      head and the last node points back at its predecessor, and no payload has changed. */
  ghost predicate HalfTurned<T>(l: List<T>, nodes: seq<Handle>, heap: map<Handle, Node<T>>)
    requires Ring(l, nodes)
  {
    && heap.Keys == l.heap.Keys
    && (forall m :: 0 <= m < |nodes| ==> heap[nodes[m]].data == l.heap[nodes[m]].data)
    && (forall m :: 0 < m < |nodes| - 1 ==> heap[nodes[m]].next == Some(nodes[m - 1]))
  }

  /** The list after `reverse`'s two final writes: the last node points at the one before it
      (at nothing on a one-node ring), the head at the last node, and the last node is the
      new head. */
  ghost predicate TurnFinished<T>(l: List<T>, nodes: seq<Handle>, heap: map<Handle, Node<T>>, r: List<T>)
    requires |nodes| > 0
  {
    var last := nodes[|nodes| - 1];
    && last in heap && nodes[0] in heap
    && var h1 := heap[last := heap[last].(next := if |nodes| == 1 then None else Some(nodes[|nodes| - 2]))];
       r == List(h1[nodes[0] := h1[nodes[0]].(next := Some(last))], Some(last), l.free)
  }

  /** Once `reverse` has turned every node but the last and the head, its two final writes
      leave a ring running the other way with every payload in place. */
  lemma RingTurned<T>(l: List<T>, nodes: seq<Handle>, heap: map<Handle, Node<T>>, r: List<T>)
    requires Ring(l, nodes) && |nodes| > 0
    requires HalfTurned(l, nodes, heap) && TurnFinished(l, nodes, heap, r)
    ensures Ring(r, Sequences.Reverse(nodes))
    ensures Contents(r, Sequences.Reverse(nodes)) == Sequences.Reverse(Contents(l, nodes))
  {
    TurnedLinks(l, nodes, heap, r);
    forall k | 0 <= k < |nodes|
      ensures nodes[k] in r.heap && r.heap[nodes[k]].data == l.heap[nodes[k]].data
    {
    }
    ContentsReverse(l, r, nodes);
  }

  lemma TurnedLinks<T>(l: List<T>, nodes: seq<Handle>, heap: map<Handle, Node<T>>, r: List<T>)
    requires Ring(l, nodes) && |nodes| > 0
    requires HalfTurned(l, nodes, heap) && TurnFinished(l, nodes, heap, r)
    ensures Ring(r, Sequences.Reverse(nodes))
  {
    var rev := Sequences.Reverse(nodes);
    DistinctReverse(nodes);
    forall j | 0 <= j < |rev| - 1
      ensures r.heap[rev[j]].next == Some(rev[j + 1])
    {
      TurnedLinkAt(l, nodes, heap, r, j);
    }
  }

  /** The link from the `j`-th node counted from the back to the one before it. */
  lemma TurnedLinkAt<T>(l: List<T>, nodes: seq<Handle>, heap: map<Handle, Node<T>>, r: List<T>, j: nat)
    requires Ring(l, nodes) && j < |nodes| - 1
    requires HalfTurned(l, nodes, heap) && TurnFinished(l, nodes, heap, r)
    ensures r.heap[nodes[|nodes| - 1 - j]].next == Some(nodes[|nodes| - 2 - j])
  {
    assert nodes[|nodes| - 1 - j] != nodes[0];
    if j > 0 {
      assert nodes[|nodes| - 1 - j] != nodes[|nodes| - 1];
    }
  }
}
