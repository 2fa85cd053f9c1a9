/** `SinglyLinkedList` (data_structures/link_list/link_list.py:30-98) as pure functions and
    methods over the arena state. The operations `SinglyCircularLinkList` inherits
    (`is_empty`, `add_in_between`, `remove_in_between`) are stated for both shapes. */
module SinglyLinked {
  import opened Wrappers
  import opened Arena
  import Sequences
  import opened SinglyNodes

  /** True exactly when the list holds no element. */
  function IsEmpty<T>(l: List<T>, ghost nodes: seq<Handle>): (r: bool)
    requires Anchored(l, nodes)
    ensures r <==> Contents(l, nodes) == []
  {
    l.head.None?
  }

  /** A new node holding `x` becomes the head, linked to the old head. */
  function AddFirst<T>(l: List<T>, x: T, ghost nodes: seq<Handle>): (r: List<T>)
    requires Valid(l, nodes)
    ensures Valid(r, [l.free] + nodes)
    ensures Contents(r, [l.free] + nodes) == [x] + Contents(l, nodes)
  {
    List(l.heap[l.free := Node(x, l.head)], Some(l.free), l.free + 1)
  }

  /** Walks to the node without successor and links a new node holding `x` after it. */
  method AddLast<T>(l: List<T>, x: T, ghost nodes: seq<Handle>) returns (r: List<T>)
    requires Valid(l, nodes)
    ensures Valid(r, nodes + [l.free])
    ensures Contents(r, nodes + [l.free]) == Contents(l, nodes) + [x]
  {
    var node := l.free;
    var heap := l.heap[node := Node(x, None)];
    if l.head.Some? {
      var cur := l.head.value;
      ghost var k := 0;
      while l.heap[cur].next.Some?
        invariant 0 <= k < |nodes| && cur == nodes[k]
        decreases |nodes| - k
      {
        cur := l.heap[cur].next.value;
        k := k + 1;
      }
      LinkAt(l, nodes, k);
      heap := heap[cur := l.heap[cur].(next := Some(node))];
      r := List(heap, l.head, node + 1);
      ghost var grown := nodes + [node];
      forall m | 0 <= m < |grown| - 1
        ensures r.heap[grown[m]].next == Some(grown[m + 1])
      {
        if m < |nodes| - 1 {
          assert grown[m] == nodes[m] && grown[m + 1] == nodes[m + 1];
        }
      }
    } else {
      r := List(heap, Some(node), node + 1);
    }
  }

  /** `prev` is the node at index `i` and `next` is the successor of the node at index
      `j - 1`: the node at index `j`, or the chain's end marker when `j` is the length
      (`None` for a linear list, `head` for a ring). With `j == i + 1` the two are adjacent. */
  ghost predicate Between<T>(l: List<T>, nodes: seq<Handle>, prev: Handle, next: Option<Handle>, i: nat, j: nat)
    requires Chain(l, nodes)
  {
    && i < j <= |nodes|
    && prev == nodes[i]
    && next == l.heap[nodes[j - 1]].next
  }

  /** A new node holding `x` is linked from `prev` and links to `next`; the nodes strictly
      between them (none when they are adjacent) drop out. Shared by both singly classes. */
  function AddInBetween<T>(l: List<T>, x: T, prev: Handle, next: Option<Handle>,
                           ghost nodes: seq<Handle>, ghost i: nat, ghost j: nat): (r: List<T>)
    requires Chain(l, nodes) && Between(l, nodes, prev, next, i, j)
    ensures Chain(r, nodes[..i + 1] + [l.free] + nodes[j..])
    ensures Contents(r, nodes[..i + 1] + [l.free] + nodes[j..])
            == Contents(l, nodes)[..i + 1] + [x] + Contents(l, nodes)[j..]
    ensures Valid(l, nodes) ==> Valid(r, nodes[..i + 1] + [l.free] + nodes[j..])
    ensures Ring(l, nodes) ==> Ring(r, nodes[..i + 1] + [l.free] + nodes[j..])
  {
    var heap := l.heap[l.free := Node(x, next)];
    var r := List(heap[prev := l.heap[prev].(next := Some(l.free))], l.head, l.free + 1);
    SplicedIn(l, r, x, prev, next, nodes, i, j);
    r
  }

  /** The arena `add_in_between` leaves: a new node holding `x` and linking to `next`, and
      `prev` linking to it. */
  ghost predicate SpliceWrites<T>(l: List<T>, r: List<T>, x: T, prev: Handle, next: Option<Handle>)
  {
    && prev in l.heap
    && r == List(l.heap[l.free := Node(x, next)][prev := l.heap[prev].(next := Some(l.free))], l.head, l.free + 1)
  }

  /** Splicing a node in keeps the chain, inserts `x` into the contents and keeps whichever
      of the two terminations the chain had. */
  lemma SplicedIn<T>(l: List<T>, r: List<T>, x: T, prev: Handle, next: Option<Handle>,
                     nodes: seq<Handle>, i: nat, j: nat)
    requires Chain(l, nodes) && Between(l, nodes, prev, next, i, j)
    requires SpliceWrites(l, r, x, prev, next)
    ensures Chain(r, nodes[..i + 1] + [l.free] + nodes[j..])
    ensures Contents(r, nodes[..i + 1] + [l.free] + nodes[j..])
            == Contents(l, nodes)[..i + 1] + [x] + Contents(l, nodes)[j..]
    ensures Valid(l, nodes) ==> Valid(r, nodes[..i + 1] + [l.free] + nodes[j..])
    ensures Ring(l, nodes) ==> Ring(r, nodes[..i + 1] + [l.free] + nodes[j..])
  {
    var spliced := nodes[..i + 1] + [l.free] + nodes[j..];
    DistinctSplice(nodes, i, j, l.free);
    ContentsSplice(l, r, nodes, i, j, l.free, x, spliced);
    forall m | 0 <= m < |spliced| - 1
      ensures r.heap[spliced[m]].next == Some(spliced[m + 1])
    {
      SplicedLinkAt(l, r, x, prev, next, nodes, i, j, m);
    }
    LinkAt(l, nodes, |nodes| - 1);
    if j < |nodes| {
      assert spliced[|spliced| - 1] == nodes[|nodes| - 1];
    }
  }

  /** The link out of the node at index `m` of the spliced chain. */
  lemma SplicedLinkAt<T>(l: List<T>, r: List<T>, x: T, prev: Handle, next: Option<Handle>,
                         nodes: seq<Handle>, i: nat, j: nat, m: nat)
    requires Chain(l, nodes) && Between(l, nodes, prev, next, i, j)
    requires SpliceWrites(l, r, x, prev, next)
    requires m < |nodes[..i + 1] + [l.free] + nodes[j..]| - 1
    ensures var spliced := nodes[..i + 1] + [l.free] + nodes[j..];
            r.heap[spliced[m]].next == Some(spliced[m + 1])
  {
    var spliced := nodes[..i + 1] + [l.free] + nodes[j..];
    if m < i {
      LinkAt(l, nodes, m);
      assert spliced[m] == nodes[m] && spliced[m + 1] == nodes[m + 1] && nodes[m] != prev;
    } else if m == i + 1 {
      LinkAt(l, nodes, j - 1);
      assert spliced[m + 1] == nodes[j];
    } else if m > i + 1 {
      var q := j + m - i - 2;
      LinkAt(l, nodes, q);
      assert spliced[m] == nodes[q] && spliced[m + 1] == nodes[q + 1] && nodes[q] != prev;
    }
  }

  /** The head advances to its successor and the old head's payload is returned;
      an empty list is left as it is and yields `None`. */
  function RemoveFirst<T>(l: List<T>, ghost nodes: seq<Handle>): (r: (List<T>, Option<T>))
    requires Valid(l, nodes)
    ensures |nodes| == 0 ==> r == (l, None)
    ensures |nodes| > 0 ==> r.1 == Some(Contents(l, nodes)[0])
    ensures |nodes| > 0 ==> Valid(r.0, nodes[1..]) && Contents(r.0, nodes[1..]) == Contents(l, nodes)[1..]
  {
    if l.head.None? then (l, None)
    else (l.(head := l.heap[l.head.value].next), Some(l.heap[l.head.value].data))
  }

  /** Walks to the second-to-last node, unlinks the last node and returns its payload.
      The source dereferences `None` on a one-node list, hence `|nodes| != 1`. */
  method RemoveLast<T>(l: List<T>, ghost nodes: seq<Handle>) returns (r: List<T>, v: Option<T>)
    requires Valid(l, nodes)
    requires |nodes| != 1
    ensures |nodes| == 0 ==> r == l && v == None
    ensures |nodes| > 0 ==> v == Some(Contents(l, nodes)[|nodes| - 1])
    ensures |nodes| > 0 ==> Valid(r, nodes[..|nodes| - 1])
    ensures |nodes| > 0 ==> Contents(r, nodes[..|nodes| - 1]) == Contents(l, nodes)[..|nodes| - 1]
  {
    if l.head.None? {
      return l, None;
    }
    var cur := l.head.value;
    ghost var k := 0;
    assert l.heap[cur].next == Some(nodes[1]);
    while l.heap[l.heap[cur].next.value].next.Some?
      invariant 0 <= k <= |nodes| - 2 && cur == nodes[k]
      invariant l.heap[cur].next == Some(nodes[k + 1])
      decreases |nodes| - k
    {
      cur := l.heap[cur].next.value;
      k := k + 1;
      LinkAt(l, nodes, k);
    }
    LinkAt(l, nodes, k + 1);
    v := Some(l.heap[l.heap[cur].next.value].data);
    r := l.(heap := l.heap[cur := l.heap[cur].(next := None)]);
  }

  /** `prev` is relinked to `next`, dropping the nodes between them (exactly one when
      `j == i + 2`); the result is always `None`. An empty list is left as it is. Shared by
      both singly classes. */
  function RemoveInBetween<T>(l: List<T>, prev: Handle, next: Option<Handle>,
                              ghost nodes: seq<Handle>, ghost i: nat, ghost j: nat): (r: (List<T>, Option<T>))
    requires Chain(l, nodes)
    requires |nodes| > 0 ==> Between(l, nodes, prev, next, i, j)
    ensures r.1 == None
    ensures |nodes| == 0 ==> r.0 == l
    ensures |nodes| > 0 ==> Chain(r.0, nodes[..i + 1] + nodes[j..])
    ensures |nodes| > 0 ==> Contents(r.0, nodes[..i + 1] + nodes[j..])
                            == Contents(l, nodes)[..i + 1] + Contents(l, nodes)[j..]
    ensures |nodes| > 0 && Valid(l, nodes) ==> Valid(r.0, nodes[..i + 1] + nodes[j..])
    ensures |nodes| > 0 && Ring(l, nodes) ==> Ring(r.0, nodes[..i + 1] + nodes[j..])
  {
    if l.head.None? then (l, None)
    else
      var r := l.(heap := l.heap[prev := l.heap[prev].(next := next)]);
      CutOut(l, r, prev, next, nodes, i, j);
      (r, None)
  }

  /** Relinking `prev` to `next` keeps the chain without the nodes between them, drops their
      payloads from the contents and keeps whichever termination the chain had. */
  lemma CutOut<T>(l: List<T>, r: List<T>, prev: Handle, next: Option<Handle>,
                  nodes: seq<Handle>, i: nat, j: nat)
    requires Chain(l, nodes) && Between(l, nodes, prev, next, i, j)
    requires r == l.(heap := l.heap[prev := l.heap[prev].(next := next)])
    ensures Chain(r, nodes[..i + 1] + nodes[j..])
    ensures Contents(r, nodes[..i + 1] + nodes[j..]) == Contents(l, nodes)[..i + 1] + Contents(l, nodes)[j..]
    ensures Valid(l, nodes) ==> Valid(r, nodes[..i + 1] + nodes[j..])
    ensures Ring(l, nodes) ==> Ring(r, nodes[..i + 1] + nodes[j..])
  {
    var kept := nodes[..i + 1] + nodes[j..];
    DistinctSplice(nodes, i, j, l.free);
    ContentsCut(l, r, nodes, i, j, kept);
    forall m | 0 <= m < |kept| - 1
      ensures r.heap[kept[m]].next == Some(kept[m + 1])
    {
      CutLinkAt(l, r, prev, next, nodes, i, j, m);
    }
    LinkAt(l, nodes, |nodes| - 1);
    if j < |nodes| {
      assert kept[|kept| - 1] == nodes[|nodes| - 1];
    }
  }

  /** The link out of the node at index `m` of the shortened chain. */
  lemma CutLinkAt<T>(l: List<T>, r: List<T>, prev: Handle, next: Option<Handle>,
                     nodes: seq<Handle>, i: nat, j: nat, m: nat)
    requires Chain(l, nodes) && Between(l, nodes, prev, next, i, j)
    requires r == l.(heap := l.heap[prev := l.heap[prev].(next := next)])
    requires m < |nodes[..i + 1] + nodes[j..]| - 1
    ensures var kept := nodes[..i + 1] + nodes[j..];
            r.heap[kept[m]].next == Some(kept[m + 1])
  {
    var kept := nodes[..i + 1] + nodes[j..];
    if m < i {
      LinkAt(l, nodes, m);
      assert kept[m] == nodes[m] && kept[m + 1] == nodes[m + 1] && nodes[m] != prev;
    } else if m == i {
      LinkAt(l, nodes, j - 1);
      assert kept[m + 1] == nodes[j];
    } else {
      var q := j + m - i - 1;
      LinkAt(l, nodes, q);
      assert kept[m] == nodes[q] && kept[m + 1] == nodes[q + 1] && nodes[q] != prev;
    }
  }

  /** The in-place reversal with `prev`, `cur` and `next`: every `next` link is turned
      around and the old last node becomes the head. */
  method Reverse<T>(l: List<T>, ghost nodes: seq<Handle>) returns (r: List<T>)
    requires Valid(l, nodes)
    ensures Valid(r, Sequences.Reverse(nodes))
    ensures Contents(r, Sequences.Reverse(nodes)) == Sequences.Reverse(Contents(l, nodes))
  {
    if l.head.None? {
      return l;
    }
    var heap := l.heap;
    var cur := l.head;
    var prev: Option<Handle> := None;
    ghost var k := 0;
    while cur.Some?
      invariant 0 <= k <= |nodes|
      invariant cur == (if k < |nodes| then Some(nodes[k]) else None)
      invariant prev == (if k == 0 then None else Some(nodes[k - 1]))
      invariant heap.Keys == l.heap.Keys
      invariant forall m :: 0 <= m < |nodes| ==> heap[nodes[m]].data == l.heap[nodes[m]].data
      invariant forall m :: k <= m < |nodes| ==> heap[nodes[m]] == l.heap[nodes[m]]
      invariant forall m :: 0 < m < k ==> heap[nodes[m]].next == Some(nodes[m - 1])
      invariant k > 0 ==> heap[nodes[0]].next == None
      decreases |nodes| - k
    {
      var next := heap[cur.value].next;
      heap := heap[cur.value := heap[cur.value].(next := prev)];
      prev, cur := cur, next;
      k := k + 1;
    }
    DistinctReverse(nodes);
    r := List(heap, prev, l.free);
  }
}
