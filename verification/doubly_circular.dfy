/** `DoublyCircularLinkList` (data_structures/link_list/link_list.py:307-381): the operations
    it overrides. `is_empty`, `add_in_between` and `remove_in_between` are inherited from
    `DoublyLinkedList`; their contracts in `DoublyLinked` cover both rings. */
module DoublyCircular {
  import opened Wrappers
  import opened Arena
  import Sequences
  import opened DoublyNodes
  import DoublyLinked

  /** A new node holding `x` is spliced in before `head`, between the last node and the old
      head, and becomes the head; on an empty list it becomes a one-node ring. */
  function AddFirst<T>(l: List<T>, x: T, ghost nodes: seq<Handle>): (r: List<T>)
    requires Ring(l, nodes)
    ensures Ring(r, [l.free] + nodes)
    ensures Contents(r, [l.free] + nodes) == [x] + Contents(l, nodes)
  {
    if l.head.None? then
      List(l.heap[l.free := Node(x, Some(l.free), Some(l.free))], Some(l.free), l.free + 1)
    else
      var h := l.head.value;
      var last := l.heap[h].prev.value;
      var heap := l.heap[l.free := Node(x, Some(last), Some(h))];
      var heap := heap[last := heap[last].(next := Some(l.free))];
      var spliced := List(heap[h := heap[h].(prev := Some(l.free))], l.head, l.free + 1);
      SplicedBeforeHead(l, x, nodes, spliced);
      spliced.(head := Some(l.free))
  }

  /** Splicing a node in between the last node and `head` extends the ring at its end; moving
      `head` back onto the new node makes it the first. */
  lemma SplicedBeforeHead<T>(l: List<T>, x: T, nodes: seq<Handle>, spliced: List<T>)
    requires Ring(l, nodes) && |nodes| > 0
    requires DoublyLinked.SpliceWrites(l, spliced, x, nodes[|nodes| - 1], nodes[0])
    ensures Ring(spliced.(head := Some(l.free)), [l.free] + nodes)
    ensures Contents(spliced.(head := Some(l.free)), [l.free] + nodes) == [x] + Contents(l, nodes)
  {
    var n := |nodes|;
    DoublyLinked.SplicedIn(l, spliced, x, nodes[n - 1], nodes[0], nodes, n - 1, n);
    assert nodes[..n] + [l.free] + nodes[n..] == nodes + [l.free];
    RingRotate(spliced, nodes, l.free);
    assert (Contents(l, nodes) + [x])[..n] == Contents(l, nodes);
  }

  /** Walks to the node whose successor is `head` and splices a new node holding `x` in
      between it and `head`; on an empty list the new node becomes a one-node ring. */
  method AddLast<T>(l: List<T>, x: T, ghost nodes: seq<Handle>) returns (r: List<T>)
    requires Ring(l, nodes)
    ensures Ring(r, nodes + [l.free])
    ensures Contents(r, nodes + [l.free]) == Contents(l, nodes) + [x]
  {
    var node := l.free;
    var heap := l.heap[node := Node(x, None, None)];
    if l.head.Some? {
      var cur := l.head.value;
      ghost var k := 0;
      while true
        invariant 0 <= k < |nodes| && cur == nodes[k]
        decreases |nodes| - k
      {
        if l.head == l.heap[cur].next {
          break;
        }
        LinkAt(l, nodes, k);
        cur := l.heap[cur].next.value;
        k := k + 1;
      }
      LinkAt(l, nodes, k);
      ghost var q := if k + 1 < |nodes| then k + 1 else 0;
      SameIndex(nodes, 0, q);
      heap := heap[cur := heap[cur].(next := Some(node))];
      heap := heap[node := heap[node].(next := l.head)];
      heap := heap[node := heap[node].(prev := Some(cur))];
      heap := heap[l.head.value := heap[l.head.value].(prev := Some(node))];
      r := List(heap, l.head, node + 1);
      DoublyLinked.SplicedIn(l, r, x, cur, l.head.value, nodes, k, |nodes|);
      assert nodes[..k + 1] + [node] + nodes[|nodes|..] == nodes + [node];
    } else {
      heap := heap[node := heap[node].(next := Some(node))];
      heap := heap[node := heap[node].(prev := Some(node))];
      r := List(heap, Some(node), node + 1);
    }
  }

  /** On a ring of two or more nodes the last node and the second node are linked to each
      other, the second node becomes the head, and the old head payload is returned. On a
      one-node ring the payload is returned but the ring is left as it was; on an empty
      list, `None`. */
  function RemoveFirst<T>(l: List<T>, ghost nodes: seq<Handle>): (r: (List<T>, Option<T>))
    requires Ring(l, nodes)
    ensures |nodes| == 0 ==> r == (l, None)
    ensures |nodes| > 0 ==> r.1 == Some(Contents(l, nodes)[0])
    ensures |nodes| == 1 ==> r.0 == l
    ensures |nodes| >= 2 ==> Ring(r.0, nodes[1..]) && Contents(r.0, nodes[1..]) == Contents(l, nodes)[1..]
  {
    if l.head.None? then (l, None)
    else
      var h := l.head.value;
      var last := l.heap[h].prev.value;
      var heap := l.heap[last := l.heap[last].(next := l.heap[h].next)];
      LinkAt(l, nodes, 0);
      var second := heap[h].next.value;
      (l.(heap := heap[second := heap[second].(prev := Some(last))], head := Some(second)),
       Some(l.heap[h].data))
  }

  /** Walks to the node two links before `head`, relinks it with `head` in both directions
      and returns the payload of the node it skipped. On a one-node ring that payload is the
      head's own and the ring is left as it was; on an empty list, `None`. */
  method RemoveLast<T>(l: List<T>, ghost nodes: seq<Handle>) returns (r: List<T>, v: Option<T>)
    requires Ring(l, nodes)
    ensures |nodes| == 0 ==> r == l && v == None
    ensures |nodes| > 0 ==> v == Some(Contents(l, nodes)[|nodes| - 1])
    ensures |nodes| == 1 ==> r == l
    ensures |nodes| >= 2 ==> Ring(r, nodes[..|nodes| - 1])
    ensures |nodes| >= 2 ==> Contents(r, nodes[..|nodes| - 1]) == Contents(l, nodes)[..|nodes| - 1]
  {
    if l.head.None? {
      return l, None;
    }
    var cur := l.head.value;
    ghost var k := 0;
    while true
      invariant 0 <= k < |nodes| && cur == nodes[k]
      invariant |nodes| >= 2 ==> k <= |nodes| - 2
      decreases |nodes| - k
    {
      LinkAt(l, nodes, k);
      LinkAt(l, nodes, (k + 1) % |nodes|);
      if l.head == l.heap[l.heap[cur].next.value].next {
        break;
      }
      cur := l.heap[cur].next.value;
      k := k + 1;
    }
    LinkAt(l, nodes, k);
    v := Some(l.heap[l.heap[cur].next.value].data);
    var heap := l.heap[cur := l.heap[cur].(next := l.head)];
    heap := heap[l.head.value := heap[l.head.value].(prev := Some(cur))];
    r := l.(heap := heap);
    if |nodes| >= 2 {
      ghost var q := if k + 2 < |nodes| then k + 2 else 0;
      LinkAt(l, nodes, k + 1);
      SameIndex(nodes, 0, q);
      LastUnlinked(l, nodes, r);
    }
  }

  /** The effect of `remove_last`'s two writes on a ring of two or more nodes: the node
      before the last one and `head` close the ring without the last node. */
  lemma LastUnlinked<T>(l: List<T>, nodes: seq<Handle>, r: List<T>)
    requires Ring(l, nodes) && |nodes| >= 2
    requires var cur := nodes[|nodes| - 2];
             var heap := l.heap[cur := l.heap[cur].(next := l.head)];
             r == l.(heap := heap[nodes[0] := heap[nodes[0]].(prev := Some(cur))])
    ensures Ring(r, nodes[..|nodes| - 1])
    ensures Contents(r, nodes[..|nodes| - 1]) == Contents(l, nodes)[..|nodes| - 1]
  {
    ghost var kept := nodes[..|nodes| - 1];
    ghost var cur := nodes[|nodes| - 2];
    forall m | 0 <= m < |kept| - 1
      ensures r.heap[kept[m]].next == Some(kept[m + 1]) && r.heap[kept[m + 1]].prev == Some(kept[m])
    {
      LinkAt(l, nodes, m);
      assert kept[m] == nodes[m] && kept[m + 1] == nodes[m + 1];
      assert nodes[m] != cur && nodes[m + 1] != nodes[0];
    }
    forall m | 0 <= m < |kept|
      ensures kept[m] in r.heap && r.heap[kept[m]].data == l.heap[nodes[m]].data
    {
      assert kept[m] == nodes[m];
    }
  }

  /** Exchanges `next` and `prev` on every node while walking the ring once, stopping on
      returning to the old head; the old head's new `next`, the old last node, becomes the
      head. */
  method Reverse<T>(l: List<T>, ghost nodes: seq<Handle>) returns (r: List<T>)
    requires Ring(l, nodes)
    ensures Ring(r, Sequences.Reverse(nodes))
    ensures Contents(r, Sequences.Reverse(nodes)) == Sequences.Reverse(Contents(l, nodes))
  {
    if l.head.None? {
      return l;
    }
    var heap := l.heap;
    var cur := l.head.value;
    var last := l.head.value;
    ghost var k := 0;
    while true
      invariant 0 <= k < |nodes| && cur == nodes[k]
      invariant heap.Keys == l.heap.Keys
      invariant forall m :: 0 <= m < k ==> heap[nodes[m]] == Swapped(l.heap[nodes[m]])
      invariant forall m :: k <= m < |nodes| ==> heap[nodes[m]] == l.heap[nodes[m]]
      decreases |nodes| - k
    {
      LinkAt(l, nodes, k);
      var temp := heap[cur].next.value;
      heap := heap[cur := Swapped(heap[cur])];
      cur := temp;
      if cur == last {
        break;
      }
      k := k + 1;
    }
    ghost var q := if k + 1 < |nodes| then k + 1 else 0;
    SameIndex(nodes, 0, q);
    r := List(heap, heap[last].next, l.free);
    AllSwapped(l, nodes, r);
  }
}
