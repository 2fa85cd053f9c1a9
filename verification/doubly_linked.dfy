/** `DoublyLinkedList` (data_structures/link_list/link_list.py:205-285) as pure functions and
    methods over the arena state. The operations `DoublyCircularLinkList` inherits
    (`is_empty`, `add_in_between`, `remove_in_between`) are stated for both shapes. */
module DoublyLinked {
  import opened Wrappers
  import opened Arena
  import Sequences
  import opened DoublyNodes

  /** True exactly when the list holds no element. */
  function IsEmpty<T>(l: List<T>, ghost nodes: seq<Handle>): (r: bool)
    requires Anchored(l, nodes)
    ensures r <==> Contents(l, nodes) == []
  {
    l.head.None?
  }

  /** A new node holding `x`, without `prev`, becomes the head; the old head, if any, links
      back to it. */
  function AddFirst<T>(l: List<T>, x: T, ghost nodes: seq<Handle>): (r: List<T>)
    requires Valid(l, nodes)
    ensures Valid(r, [l.free] + nodes)
    ensures Contents(r, [l.free] + nodes) == [x] + Contents(l, nodes)
  {
    if l.head.None? then
      List(l.heap[l.free := Node(x, None, None)], Some(l.free), l.free + 1)
    else
      var h := l.head.value;
      var heap := l.heap[l.free := Node(x, None, l.head)];
      List(heap[h := heap[h].(prev := Some(l.free))], Some(l.free), l.free + 1)
  }

  /** Walks to the node without `next` and links a new node holding `x` after it, in both
      directions; on an empty list the new node becomes the head. */
  method AddLast<T>(l: List<T>, x: T, ghost nodes: seq<Handle>) returns (r: List<T>)
    requires Valid(l, nodes)
    ensures Valid(r, nodes + [l.free])
    ensures Contents(r, nodes + [l.free]) == Contents(l, nodes) + [x]
  {
    var node := l.free;
    var heap := l.heap[node := Node(x, None, None)];
    if l.head.Some? {
      var cur := l.head.value;
      ghost var k := 0;
      while l.heap[cur].next.Some?
        invariant 0 <= k < |nodes| && cur == nodes[k]
        decreases |nodes| - k
      {
        LinkAt(l, nodes, k);
        cur := l.heap[cur].next.value;
        k := k + 1;
      }
      LinkAt(l, nodes, k);
      heap := heap[node := heap[node].(prev := Some(cur))];
      heap := heap[cur := heap[cur].(next := Some(node))];
      r := List(heap, l.head, node + 1);
      ghost var grown := nodes + [node];
      forall m | 0 <= m < |grown| - 1
        ensures r.heap[grown[m]].next == Some(grown[m + 1]) && r.heap[grown[m + 1]].prev == Some(grown[m])
      {
        if m < |nodes| - 1 {
          LinkAt(l, nodes, m);
          assert grown[m] == nodes[m] && grown[m + 1] == nodes[m + 1];
        }
      }
    } else {
      r := List(heap, Some(node), node + 1);
    }
  }

  /** `prev` is the node at index `i` and `next` is the successor of the node at index
      `j - 1`: the node at index `j`, or `head` when `j` is the length of a ring. With
      `j == i + 1` the two are adjacent. `next` must be a node: the source dereferences it. */
  ghost predicate Between<T>(l: List<T>, nodes: seq<Handle>, prev: Handle, next: Handle, i: nat, j: nat)
    requires Chain(l, nodes)
  {
    && i < j <= |nodes|
    && prev == nodes[i]
    && l.heap[nodes[j - 1]].next == Some(next)
  }

  /** A new node holding `x` is linked between `prev` and `next` in both directions; the
      nodes strictly between them (none when they are adjacent) drop out. Shared by both
      doubly classes. */
  method AddInBetween<T>(l: List<T>, x: T, prev: Handle, next: Handle,
                         ghost nodes: seq<Handle>, ghost i: nat, ghost j: nat) returns (r: List<T>)
    requires Valid(l, nodes) || Ring(l, nodes)
    requires Between(l, nodes, prev, next, i, j)
    ensures Chain(r, nodes[..i + 1] + [l.free] + nodes[j..])
    ensures Contents(r, nodes[..i + 1] + [l.free] + nodes[j..])
            == Contents(l, nodes)[..i + 1] + [x] + Contents(l, nodes)[j..]
    ensures Valid(l, nodes) ==> Valid(r, nodes[..i + 1] + [l.free] + nodes[j..])
    ensures Ring(l, nodes) ==> Ring(r, nodes[..i + 1] + [l.free] + nodes[j..])
  {
    NextAt(l, nodes, prev, next, i, j);
    var node := l.free;
    var heap := l.heap[node := Node(x, Some(prev), Some(next))];
    heap := heap[prev := heap[prev].(next := Some(node))];
    heap := heap[next := heap[next].(prev := Some(node))];
    r := List(heap, l.head, node + 1);
    SplicedIn(l, r, x, prev, next, nodes, i, j);
  }

  /** The node `next` names: the one at index `j`, or the head when `j` is the length of a
      ring (a valid list has no successor there). */
  lemma NextAt<T>(l: List<T>, nodes: seq<Handle>, prev: Handle, next: Handle, i: nat, j: nat)
    requires Valid(l, nodes) || Ring(l, nodes)
    requires Between(l, nodes, prev, next, i, j)
    ensures Valid(l, nodes) ==> j < |nodes|
    ensures next == nodes[if j < |nodes| then j else 0]
  {
    LinkAt(l, nodes, j - 1);
  }

  /** The arena `add_in_between` leaves, node by node: one new node between `prev` and
      `next`, `prev` linking forward to it, `next` back to it, and nothing else changed. */
  ghost predicate SpliceWrites<T>(l: List<T>, r: List<T>, x: T, prev: Handle, next: Handle)
  {
    && r.head == l.head && r.free == l.free + 1 && r.heap.Keys == l.heap.Keys + {l.free}
    && r.heap[l.free] == Node(x, Some(prev), Some(next))
    && forall h :: h in l.heap ==>
         r.heap[h] == Node(l.heap[h].data,
                           if h == next then Some(l.free) else l.heap[h].prev,
                           if h == prev then Some(l.free) else l.heap[h].next)
  }

  /** Splicing a node in keeps the two-way chain, inserts `x` into the contents and keeps
      whichever of the two shapes the list had. */
  lemma SplicedIn<T>(l: List<T>, r: List<T>, x: T, prev: Handle, next: Handle,
                     nodes: seq<Handle>, i: nat, j: nat)
    requires Valid(l, nodes) || Ring(l, nodes)
    requires Between(l, nodes, prev, next, i, j)
    requires SpliceWrites(l, r, x, prev, next)
    ensures Chain(r, nodes[..i + 1] + [l.free] + nodes[j..])
    ensures Contents(r, nodes[..i + 1] + [l.free] + nodes[j..])
            == Contents(l, nodes)[..i + 1] + [x] + Contents(l, nodes)[j..]
    ensures Valid(l, nodes) ==> Valid(r, nodes[..i + 1] + [l.free] + nodes[j..])
    ensures Ring(l, nodes) ==> Ring(r, nodes[..i + 1] + [l.free] + nodes[j..])
  {
    NextAt(l, nodes, prev, next, i, j);
    var spliced := nodes[..i + 1] + [l.free] + nodes[j..];
    DistinctSplice(nodes, i, j, l.free);
    ContentsSplice(l, r, nodes, i, j, l.free, x, spliced);
    forall m | 0 <= m < |spliced| - 1
      ensures r.heap[spliced[m]].next == Some(spliced[m + 1])
      ensures r.heap[spliced[m + 1]].prev == Some(spliced[m])
    {
      SplicedLinkAt(l, r, x, prev, next, nodes, i, j, m);
    }
    if j < |nodes| {
      assert spliced[|spliced| - 1] == nodes[|nodes| - 1] && nodes[0] != next;
    }
  }

  /** The links between the nodes at indices `m` and `m + 1` of the spliced chain. */
  lemma SplicedLinkAt<T>(l: List<T>, r: List<T>, x: T, prev: Handle, next: Handle,
                         nodes: seq<Handle>, i: nat, j: nat, m: nat)
    requires Valid(l, nodes) || Ring(l, nodes)
    requires Between(l, nodes, prev, next, i, j)
    requires SpliceWrites(l, r, x, prev, next)
    requires m < |nodes[..i + 1] + [l.free] + nodes[j..]| - 1
    ensures var spliced := nodes[..i + 1] + [l.free] + nodes[j..];
            r.heap[spliced[m]].next == Some(spliced[m + 1]) && r.heap[spliced[m + 1]].prev == Some(spliced[m])
  {
    NextAt(l, nodes, prev, next, i, j);
    var spliced := nodes[..i + 1] + [l.free] + nodes[j..];
    if m < i {
      LinkAt(l, nodes, m);
      assert spliced[m] == nodes[m] && spliced[m + 1] == nodes[m + 1];
      assert nodes[m] != prev && nodes[m + 1] != next;
    } else if m == i + 1 {
      assert spliced[m + 1] == nodes[j];
    } else if m > i + 1 {
      var q := j + m - i - 2;
      LinkAt(l, nodes, q);
      assert spliced[m] == nodes[q] && spliced[m + 1] == nodes[q + 1];
      assert nodes[q] != prev && nodes[q + 1] != next;
    }
  }

  /** The head advances to its successor, which loses its `prev`, and the old head's payload
      is returned; an empty list is left as it is and yields `None`. The source dereferences
      `None` on a one-node list, hence `|nodes| != 1`. */
  function RemoveFirst<T>(l: List<T>, ghost nodes: seq<Handle>): (r: (List<T>, Option<T>))
    requires Valid(l, nodes)
    requires |nodes| != 1
    ensures |nodes| == 0 ==> r == (l, None)
    ensures |nodes| > 0 ==> r.1 == Some(Contents(l, nodes)[0])
    ensures |nodes| > 0 ==> Valid(r.0, nodes[1..]) && Contents(r.0, nodes[1..]) == Contents(l, nodes)[1..]
  {
    if l.head.None? then (l, None)
    else
      var h := l.head.value;
      LinkAt(l, nodes, 0);
      var second := l.heap[h].next.value;
      (l.(heap := l.heap[second := l.heap[second].(prev := None)], head := Some(second)),
       Some(l.heap[h].data))
  }

  /** Walks to the second-to-last node, clears its `next` and returns the last payload.
      The source dereferences `None` on a one-node list, hence `|nodes| != 1`. */
  method RemoveLast<T>(l: List<T>, ghost nodes: seq<Handle>) returns (r: List<T>, v: Option<T>)
    requires Valid(l, nodes)
    requires |nodes| != 1
    ensures |nodes| == 0 ==> r == l && v == None
    ensures |nodes| > 0 ==> v == Some(Contents(l, nodes)[|nodes| - 1])
    ensures |nodes| > 0 ==> Valid(r, nodes[..|nodes| - 1])
    ensures |nodes| > 0 ==> Contents(r, nodes[..|nodes| - 1]) == Contents(l, nodes)[..|nodes| - 1]
  {
    if l.head.None? {
      return l, None;
    }
    var cur := l.head.value;
    ghost var k := 0;
    LinkAt(l, nodes, 0);
    while l.heap[l.heap[cur].next.value].next.Some?
      invariant 0 <= k <= |nodes| - 2 && cur == nodes[k]
      invariant l.heap[cur].next == Some(nodes[k + 1])
      decreases |nodes| - k
    {
      cur := l.heap[cur].next.value;
      k := k + 1;
      LinkAt(l, nodes, k);
    }
    LinkAt(l, nodes, k + 1);
    v := Some(l.heap[l.heap[cur].next.value].data);
    r := l.(heap := l.heap[cur := l.heap[cur].(next := None)]);
  }

  /** `next` links back to `prev` and `prev` forward to `next`, dropping the nodes between
      them (exactly one when `j == i + 2`); the result is always `None`. An empty list is left
      as it is. Shared by both doubly classes. */
  method RemoveInBetween<T>(l: List<T>, prev: Handle, next: Handle,
                            ghost nodes: seq<Handle>, ghost i: nat, ghost j: nat)
    returns (r: List<T>, v: Option<T>)
    requires Valid(l, nodes) || Ring(l, nodes)
    requires |nodes| > 0 ==> Between(l, nodes, prev, next, i, j)
    ensures v == None
    ensures |nodes| == 0 ==> r == l
    ensures |nodes| > 0 ==> Chain(r, nodes[..i + 1] + nodes[j..])
    ensures |nodes| > 0 ==> Contents(r, nodes[..i + 1] + nodes[j..])
                            == Contents(l, nodes)[..i + 1] + Contents(l, nodes)[j..]
    ensures |nodes| > 0 && Valid(l, nodes) ==> Valid(r, nodes[..i + 1] + nodes[j..])
    ensures |nodes| > 0 && Ring(l, nodes) ==> Ring(r, nodes[..i + 1] + nodes[j..])
  {
    if l.head.None? {
      return l, None;
    }
    NextAt(l, nodes, prev, next, i, j);
    var heap := l.heap[next := l.heap[next].(prev := Some(prev))];
    heap := heap[prev := heap[prev].(next := Some(next))];
    r, v := l.(heap := heap), None;
    CutOut(l, r, prev, next, nodes, i, j);
  }

  /** The arena `remove_in_between` leaves, node by node: `prev` links forward to `next`,
      `next` back to `prev`, and nothing else changed. */
  ghost predicate CutWrites<T>(l: List<T>, r: List<T>, prev: Handle, next: Handle)
  {
    && r.head == l.head && r.free == l.free && r.heap.Keys == l.heap.Keys
    && forall h :: h in l.heap ==>
         r.heap[h] == Node(l.heap[h].data,
                           if h == next then Some(prev) else l.heap[h].prev,
                           if h == prev then Some(next) else l.heap[h].next)
  }

  /** Relinking `prev` and `next` keeps the two-way chain without the nodes between them,
      drops their payloads from the contents and keeps whichever shape the list had. */
  lemma CutOut<T>(l: List<T>, r: List<T>, prev: Handle, next: Handle, nodes: seq<Handle>, i: nat, j: nat)
    requires Valid(l, nodes) || Ring(l, nodes)
    requires Between(l, nodes, prev, next, i, j)
    requires CutWrites(l, r, prev, next)
    ensures Chain(r, nodes[..i + 1] + nodes[j..])
    ensures Contents(r, nodes[..i + 1] + nodes[j..]) == Contents(l, nodes)[..i + 1] + Contents(l, nodes)[j..]
    ensures Valid(l, nodes) ==> Valid(r, nodes[..i + 1] + nodes[j..])
    ensures Ring(l, nodes) ==> Ring(r, nodes[..i + 1] + nodes[j..])
  {
    NextAt(l, nodes, prev, next, i, j);
    var kept := nodes[..i + 1] + nodes[j..];
    DistinctSplice(nodes, i, j, l.free);
    ContentsCut(l, r, nodes, i, j, kept);
    forall m | 0 <= m < |kept| - 1
      ensures r.heap[kept[m]].next == Some(kept[m + 1])
      ensures r.heap[kept[m + 1]].prev == Some(kept[m])
    {
      CutLinkAt(l, r, prev, next, nodes, i, j, m);
    }
    if j < |nodes| {
      assert kept[|kept| - 1] == nodes[|nodes| - 1] && nodes[0] != next;
    }
  }

  /** The links between the nodes at indices `m` and `m + 1` of the shortened chain. */
  lemma CutLinkAt<T>(l: List<T>, r: List<T>, prev: Handle, next: Handle,
                     nodes: seq<Handle>, i: nat, j: nat, m: nat)
    requires Valid(l, nodes) || Ring(l, nodes)
    requires Between(l, nodes, prev, next, i, j)
    requires CutWrites(l, r, prev, next)
    requires m < |nodes[..i + 1] + nodes[j..]| - 1
    ensures var kept := nodes[..i + 1] + nodes[j..];
            r.heap[kept[m]].next == Some(kept[m + 1]) && r.heap[kept[m + 1]].prev == Some(kept[m])
  {
    NextAt(l, nodes, prev, next, i, j);
    var kept := nodes[..i + 1] + nodes[j..];
    if m < i {
      LinkAt(l, nodes, m);
      assert kept[m] == nodes[m] && kept[m + 1] == nodes[m + 1];
      assert nodes[m] != prev && nodes[m + 1] != next;
    } else if m == i {
      assert kept[m + 1] == nodes[j];
    } else {
      var q := j + m - i - 1;
      LinkAt(l, nodes, q);
      assert kept[m] == nodes[q] && kept[m + 1] == nodes[q + 1];
      assert nodes[q] != prev && nodes[q + 1] != next;
    }
  }

  /** Exchanges `next` and `prev` on every node in one forward pass, remembering the `prev`
      of the last node visited; the old last node becomes the head. */
  method Reverse<T>(l: List<T>, ghost nodes: seq<Handle>) returns (r: List<T>)
    requires Valid(l, nodes)
    ensures Valid(r, Sequences.Reverse(nodes))
    ensures Contents(r, Sequences.Reverse(nodes)) == Sequences.Reverse(Contents(l, nodes))
  {
    if l.head.None? {
      return l;
    }
    var heap := l.heap;
    var cur := l.head;
    var newHead: Option<Handle> := None;
    ghost var k := 0;
    while cur.Some?
      invariant 0 <= k <= |nodes|
      invariant cur == (if k < |nodes| then Some(nodes[k]) else None)
      invariant newHead == (if k <= 1 then None else Some(nodes[k - 2]))
      invariant heap.Keys == l.heap.Keys
      invariant forall m :: 0 <= m < k ==> heap[nodes[m]] == Swapped(l.heap[nodes[m]])
      invariant forall m :: k <= m < |nodes| ==> heap[nodes[m]] == l.heap[nodes[m]]
      decreases |nodes| - k
    {
      LinkAt(l, nodes, k);
      if k > 0 {
        LinkAt(l, nodes, k - 1);
      }
      var next := heap[cur.value].next;
      newHead := heap[cur.value].prev;
      heap := heap[cur.value := Swapped(heap[cur.value])];
      cur := next;
      k := k + 1;
    }
    if newHead.Some? {
      LinkAt(l, nodes, |nodes| - 2);
      r := List(heap, heap[newHead.value].prev, l.free);
    } else {
      r := List(heap, l.head, l.free);
    }
    AllSwapped(l, nodes, r);
  }
}
