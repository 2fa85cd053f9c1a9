# Linked lists, stack and queue in Dafny

This project models the linked-list family of a small Python library of linear data
structures, together with its two deque-backed adapters:

- `SinglyLinkedList` and `SinglyCircularLinkList`, whose nodes have a `next` link;
- `DoublyLinkedList` and `DoublyCircularLinkList`, whose nodes have `prev` and `next` links;
- `Stack` (LIFO) and `Queue` (FIFO).

It proves the shape invariants each operation keeps and what each operation does to the
sequence of payloads.

## How the lists are modelled

A Python list object is a `List<T>(heap, head, free)`:

- `heap` maps a `Handle` (a natural number standing for a node's identity) to a node record;
- `head` is the handle of the first node, or `None`;
- `free` is the handle the allocator hands out next; every handle in `heap` lies below it.

Node objects that a list stops reaching stay in `heap`, as unreachable objects do until the
garbage collector reclaims them.

Every operation takes a ghost sequence `nodes`: the handles the list reaches from `head`, in
order.

- `Chain` says these handles are live, distinct, and linked one to the next (in both
  directions for the doubly linked lists).
- `Valid` adds the null terminations of a linear list.
- `Ring` adds the closing link or links of a circular list.
- `Contents(l, nodes)` is the abstract value of the list: the payloads along `nodes`.

`ValidUnique` and `RingUnique`, in both `SinglyNodes` and `DoublyNodes`, show that `nodes` is
determined by the arena and `head`, so `Contents` is a function of the list object.

Each mutator states three things:

- the shape it leaves (`Valid` stays `Valid`, `Ring` stays `Ring`);
- the new handle sequence;
- the new contents, in terms of the old contents.

The loops of `add_last`, `remove_last` and `reverse` are modelled as loops, with the
invariants that justify them. In the object model, Python mutates shared node objects. Here
each operation returns the new list object instead.

The inherited operations are modelled once:

- `is_empty`, `add_in_between` and `remove_in_between` of `SinglyLinkedList` also serve
  `SinglyCircularLinkList`. Their contracts in `SinglyLinked` cover both shapes.
- The same holds for `DoublyLinkedList` and `DoublyCircularLinkList`.

For `add_in_between(prev_node, next_node)`:

- `prev_node` is the node at index `i`.
- `next_node` is what the node at index `j - 1` links to. That is the node at index `j`, or the
  chain's end marker when `j` is the length: `None` for a linear list, `head` for a ring.
- The nodes strictly between the two drop out. There are none when the two are adjacent.
  `remove_in_between` with `j == i + 2` removes exactly one node.

The source's own failure modes are kept as they are:

- The linear `remove_last` dereferences `None` on a one-node list. `DoublyLinkedList.remove_first`
  does the same. Both carry the precondition `|nodes| != 1`. An empty list still takes the
  `None` path.
- The doubly linked `add_in_between` and `remove_in_between` write to `next_node.prev`, so there
  `next_node` must be a node.
- On a one-node ring, both circular classes' `remove_first` and `remove_last` return the
  payload but leave the ring exactly as it was.
- `remove_in_between` returns `None` in every case.

`Stack` and `Queue` store their items in a `seq`, oldest first. `pop`, `peek` and `dequeue`
return `Option`, with `None` for the source's `None` on an empty collection.

Files:

- `wrappers.dfy`: `Option`.
- `sequences.dfy`: `Reverse`.
- `arena.dfy`: handles and distinctness.
- `singly_nodes.dfy` and `doubly_nodes.dfy`: node shapes, invariants and traversal facts.
- `singly_linked.dfy`, `singly_circular.dfy`, `doubly_linked.dfy` and `doubly_circular.dfy`:
  one module per class.
- `stack.dfy` and `queue.dfy`: the adapters.

## Model

| member | source | states |
|---|---|---|
| SinglyNodes.New | data_structures/link_list/link_list.py:34-35 | a new list is both an empty linear list and an empty ring, and no non-empty node sequence is valid for it, in either shape |
| SinglyNodes.Terminates | data_structures/link_list/link_list.py:7-8 | following `next` from `head` visits the list's nodes in order, then reaches the null link after exactly as many steps as there are nodes |
| SinglyNodes.RingReturns | data_structures/link_list/link_list.py:12-13 | in a circular list, starting at any node, exactly n steps along `next` lead back to it and no fewer positive number of steps does (n = size) |
| SinglyNodes.ValidUnique | data_structures/link_list/link_list.py:3-8 | the node sequence a linear list represents is fixed by its nodes' links and its head, so its contents are well defined |
| SinglyNodes.RingUnique | data_structures/link_list/link_list.py:12-13 | the node sequence a circular list represents is fixed by its nodes' links and its head |
| SinglyNodes.ReverseTwice | data_structures/link_list/link_list.py:88-98 | reversing a list twice gives back the original node order, head and contents |
| SinglyLinked.IsEmpty | data_structures/link_list/link_list.py:37-39 | true exactly when the list's contents are empty |
| SinglyLinked.AddFirst | data_structures/link_list/link_list.py:41-44 | the list stays null-terminated, the new node is first, and the contents become `[x]` followed by the old contents |
| SinglyLinked.AddLast | data_structures/link_list/link_list.py:46-55 | the walk stops at the last node, the list stays null-terminated with the new node last, and the contents become the old contents followed by `[x]` |
| SinglyLinked.AddInBetween | data_structures/link_list/link_list.py:57-60 | the new node sits right after `prev_node` and right before `next_node`, and `x` takes the place of the payloads between them; linear lists stay linear and rings stay rings |
| SinglyLinked.RemoveFirst | data_structures/link_list/link_list.py:62-68 | empty list: unchanged, result `None`; otherwise the first payload is returned and the rest stays a valid list holding the remaining contents |
| SinglyLinked.RemoveLast | data_structures/link_list/link_list.py:70-80 | empty list: unchanged, result `None`; otherwise the last payload is returned and the list keeps all but the last element, still null-terminated |
| SinglyLinked.RemoveInBetween | data_structures/link_list/link_list.py:82-86 | always returns `None`; on a non-empty list the payloads strictly between `prev_node` and `next_node` leave the contents, and each shape is kept |
| SinglyLinked.Reverse | data_structures/link_list/link_list.py:88-98 | the result is a null-terminated list over the same nodes in reverse order, whose contents are the old contents reversed |
| SinglyCircular.AddFirst | data_structures/link_list/link_list.py:116-125 | the list stays a ring and its contents become `[x]` followed by the old contents; on a non-empty ring the head node keeps its identity and the new node carries the old first payload |
| SinglyCircular.AddLast | data_structures/link_list/link_list.py:127-139 | the walk stops at the node that links back to `head`, the list stays a ring with the new node last, and the contents gain `x` at the end |
| SinglyCircular.RemoveFirst | data_structures/link_list/link_list.py:141-147 | the first payload is returned; with two or more nodes the head node keeps its identity, the ring loses the second node, and the contents lose their first element; a one-node ring is unchanged; empty gives `None` |
| SinglyCircular.RemoveLast | data_structures/link_list/link_list.py:149-161 | the last payload is returned; with two or more nodes the ring closes without the last node and the contents lose their last element; a one-node ring is unchanged; empty gives `None` |
| SinglyCircular.Reverse | data_structures/link_list/link_list.py:163-179 | the result is a ring over the same nodes in reverse order, whose contents are the old contents reversed |
| DoublyNodes.New | data_structures/link_list/link_list.py:209-210 | a new list is both an empty linear list and an empty ring, and no non-empty node sequence is valid for it, in either shape |
| DoublyNodes.Traversals | data_structures/link_list/link_list.py:9-11 | forward from `head` the list visits its nodes in order and then finds no link; backward from the last node it visits them in reverse order and then finds no link |
| DoublyNodes.LinksAgree | data_structures/link_list/link_list.py:9-11 | in a linear or circular doubly linked list, one node's `next` is a second node exactly when the second node's `prev` is the first |
| DoublyNodes.RingsReturn | data_structures/link_list/link_list.py:386-411 | in a doubly circular list, from any node exactly n steps along `next`, and exactly n along `prev`, lead back to it, and no fewer positive number does (n = size) |
| DoublyNodes.ValidUnique | data_structures/link_list/link_list.py:9-11 | the node sequence a doubly linked list represents is fixed by its nodes' links and its head, so its contents are well defined |
| DoublyNodes.RingUnique | data_structures/link_list/link_list.py:307-309 | the node sequence a doubly circular list represents is fixed by its nodes' links and its head |
| DoublyNodes.ReverseTwice | data_structures/link_list/link_list.py:273-285 | reversing a list twice gives back the original node order, head and contents |
| DoublyLinked.IsEmpty | data_structures/link_list/link_list.py:212-214 | true exactly when the list's contents are empty |
| DoublyLinked.AddFirst | data_structures/link_list/link_list.py:216-224 | the list stays linear in both directions with the new node first, and the contents become `[x]` followed by the old contents |
| DoublyLinked.AddLast | data_structures/link_list/link_list.py:226-237 | the list stays linear in both directions with the new node last, and the contents become the old contents followed by `[x]` |
| DoublyLinked.AddInBetween | data_structures/link_list/link_list.py:239-243 | the new node is linked both ways between `prev_node` and `next_node`, and `x` takes the place of the payloads between them; linear lists stay linear and rings stay rings in both directions |
| DoublyLinked.RemoveFirst | data_structures/link_list/link_list.py:245-252 | empty list: unchanged, result `None`; otherwise the first payload is returned and the rest, whose new first node has no `prev`, holds the remaining contents |
| DoublyLinked.RemoveLast | data_structures/link_list/link_list.py:254-264 | empty list: unchanged, result `None`; otherwise the last payload is returned and the list keeps all but the last element, linked both ways |
| DoublyLinked.RemoveInBetween | data_structures/link_list/link_list.py:266-271 | always returns `None`; on a non-empty list the payloads strictly between `prev_node` and `next_node` leave the contents, the two are linked both ways, and each shape is kept |
| DoublyLinked.Reverse | data_structures/link_list/link_list.py:273-285 | the result is a linear list over the same nodes in reverse order, linked both ways, whose contents are the old contents reversed |
| DoublyCircular.AddFirst | data_structures/link_list/link_list.py:311-322 | the list stays a ring in both directions with the new node first, and the contents become `[x]` followed by the old contents |
| DoublyCircular.AddLast | data_structures/link_list/link_list.py:324-340 | the walk stops at the node that links back to `head`, the list stays a ring in both directions with the new node last, and the contents gain `x` at the end |
| DoublyCircular.RemoveFirst | data_structures/link_list/link_list.py:342-351 | the first payload is returned; with two or more nodes the second node becomes the head of a ring, linked both ways, holding the remaining contents; a one-node ring is unchanged; empty gives `None` |
| DoublyCircular.RemoveLast | data_structures/link_list/link_list.py:353-366 | the last payload is returned; with two or more nodes the ring closes both ways without the last node and the contents lose their last element; a one-node ring is unchanged; empty gives `None` |
| DoublyCircular.Reverse | data_structures/link_list/link_list.py:368-381 | the result is a ring over the same nodes in reverse order, linked both ways, whose contents are the old contents reversed |
| Stacks.New | data_structures/stack/stack.py:21-23 | a new stack holds no items |
| Stacks.IsEmpty | data_structures/stack/stack.py:25-27 | true exactly when the size is zero, that is, exactly when the stack equals a new one |
| Stacks.Peek | data_structures/stack/stack.py:39-43 | `None` exactly when the stack is empty |
| Stacks.Push | data_structures/stack/stack.py:29-31 | the size grows by one and `peek` then sees the pushed item |
| Stacks.Pop | data_structures/stack/stack.py:33-37 | empty: unchanged, result `None`; otherwise the result is what `peek` saw, the size drops by one, and pushing the result back restores the stack |
| Stacks.PopAll | data_structures/stack/stack.py:45-47 | `size()` counts what the stack gives back: popping that many times returns every stored item, newest first, and leaves an empty stack |
| Stacks.PushPop | data_structures/stack/stack.py:29-37 | `pop` right after `push(x)` returns `x` and restores the earlier stack |
| Stacks.PushAllItems | data_structures/stack/stack.py:29-31 | pushing a sequence of items appends them, in order, to the stored items |
| Stacks.Lifo | data_structures/stack/stack.py:50-63 | pushing n items and popping n times returns them newest first and leaves the stack as it was before the pushes |
| Queues.New | data_structures/queue/queue.py:21-23 | a new queue holds no items |
| Queues.IsEmpty | data_structures/queue/queue.py:25-27 | true exactly when the size is zero, that is, exactly when the queue equals a new one |
| Queues.Enqueue | data_structures/queue/queue.py:29-31 | the size grows by one, the earlier items keep their order in front, and the new item is last |
| Queues.Dequeue | data_structures/queue/queue.py:33-37 | empty: unchanged, result `None`; otherwise it returns the front item, the size drops by one, and the item followed by the remaining queue is the old queue |
| Queues.DequeueAll | data_structures/queue/queue.py:39-41 | `size()` counts what the queue gives back: dequeueing that many times returns every stored item, front first, and leaves an empty queue |
| Queues.EnqueueDequeue | data_structures/queue/queue.py:29-37 | on an empty queue, `dequeue` right after `enqueue(x)` returns `x`; on a non-empty one, enqueueing and dequeueing commute |
| Queues.EnqueueAllItems | data_structures/queue/queue.py:29-31 | enqueueing a sequence of items appends them, in order, to the stored items |
| Queues.DrainInOrder | data_structures/queue/queue.py:33-37 | dequeueing as many times as there are items returns every item front to back and leaves an empty queue |
| Queues.Fifo | data_structures/queue/queue.py:44-52 | after enqueueing items, dequeueing once per stored item returns the items already stored and then the new ones, each in arrival order, and leaves the queue empty |

## Left out

- `print_list` and `print_list_reverse`: they only print. The traversals they perform, and
  the fact that they stop, are stated by `Terminates`, `RingReturns`, `Traversals` and
  `RingsReturn`.
- The `__main__` demonstration blocks of the three files: they run fixed inputs and print.
  `Lifo` and `Fifo` state the general outcome of the stack and queue demonstrations.
- The time-complexity claims in the module docstrings: the model has no cost measure.
- The internals of `collections.deque`: stack and queue items are a Dafny `seq`.
- Memory reclamation: unreachable nodes stay in the arena.
- Node handles that do not belong to the list: the `Between` predicates require `prev_node`
  and `next_node` to be nodes of this list with `prev_node` first. On other arguments the
  source builds a structure that is no longer a list of the modelled shape.
- SinglyLinked.RemoveLast: requires `|nodes| != 1`, because the source raises on a one-node
  list. That case is not modelled.
- DoublyLinked.RemoveLast: requires `|nodes| != 1` for the same reason.
- DoublyLinked.RemoveFirst: requires `|nodes| != 1`, because the source's write to
  `self.head.prev` dereferences `None` on a one-node list.
- DoublyLinked.AddInBetween: requires `next_node` to be a node, because the source writes
  `next_node.prev`. A `None` successor is not modelled for the doubly linked classes.
- DoublyLinked.RemoveInBetween: requires `next_node` to be a node, for the same reason.
- Stacks.Peek: its own contract says only when the result is `None`. Which item it returns
  is stated through `Push` and `Pop`.
- Fixed-width integers: none occur; handles are unbounded naturals.

Where the library's own docstrings promise more than its code does, the model follows the code:

- `remove_in_between` is documented as removing and returning the middle element
  (link_list.py:83 and :267), but it returns `None` in every case.
- On a one-node ring, `remove_first` and `remove_last` of both circular classes are
  documented as removing the element (link_list.py:142, :150, :343 and :354). They return
  its payload but leave the node in place, so the ring is unchanged.
- `remove_last` of both linear classes, documented at link_list.py:71 and :255, and
  `DoublyLinkedList.remove_first`, documented at :246, raise on a one-node list. The
  model keeps these cases as preconditions, listed above.
- The module docstring claims O(1) insertion and removal (link_list.py:14-18). `add_last` and
  `remove_last` walk the whole list, as the model's loops do. The model has no cost measure,
  so it neither confirms nor refutes the claim.
