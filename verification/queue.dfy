/** `Queue` (data_structures/queue/queue.py): a FIFO adapter over a double-ended sequence. */
module Queues {
  import opened Wrappers

  /** The stored items, oldest (the front) first. */
  datatype Queue<T> = Queue(items: seq<T>)

  /** A queue with nothing stored. */
  function New<T>(): (q: Queue<T>)
    ensures Size(q) == 0
  {
    Queue([])
  }

  /** The number of stored items. */
  function Size<T>(q: Queue<T>): (r: nat)
  {
    |q.items|
  }

  /** True exactly when the queue holds no item. */
  function IsEmpty<T>(q: Queue<T>): (r: bool)
    ensures r <==> Size(q) == 0
    ensures r <==> q == New()
  {
    |q.items| == 0
  }

  /** Adds `x` at the back: one item more, and every earlier item still leaves first. */
  function Enqueue<T>(q: Queue<T>, x: T): (r: Queue<T>)
    ensures Size(r) == Size(q) + 1
    ensures r.items[..Size(q)] == q.items && r.items[Size(q)] == x
  {
    Queue(q.items + [x])
  }

  /** Removes and returns the front item; an empty queue is left as it is and yields `None`. */
  function Dequeue<T>(q: Queue<T>): (r: (Queue<T>, Option<T>))
    ensures IsEmpty(q) ==> r == (q, None)
    ensures !IsEmpty(q) ==> r.1.Some? && Size(r.0) == Size(q) - 1 && [r.1.value] + r.0.items == q.items
  {
    if IsEmpty(q) then (q, None) else (Queue(q.items[1..]), Some(q.items[0]))
  }

  /** Enqueueing and dequeueing commute on a non-empty queue; on an empty one, the item just
      enqueued comes straight back out. */
  lemma EnqueueDequeue<T>(q: Queue<T>, x: T)
    ensures IsEmpty(q) ==> Dequeue(Enqueue(q, x)) == (q, Some(x))
    ensures !IsEmpty(q) ==> Dequeue(Enqueue(q, x)) == (Enqueue(Dequeue(q).0, x), Dequeue(q).1)
  {
    if !IsEmpty(q) {
      assert Enqueue(q, x).items[1..] == q.items[1..] + [x];
    }
  }

  /** The queue after enqueueing `xs` in order. */
  function EnqueueAll<T>(q: Queue<T>, xs: seq<T>): (r: Queue<T>)
    decreases |xs|
  {
    if xs == [] then q else EnqueueAll(Enqueue(q, xs[0]), xs[1..])
  }

  /** Dequeues `k` times, collecting the results in order. */
  function DequeueTimes<T>(q: Queue<T>, k: nat): (r: (Queue<T>, seq<Option<T>>))
    decreases k
  {
    if k == 0 then (q, [])
    else
      var (rest, front) := Dequeue(q);
      var (final, fronts) := DequeueTimes(rest, k - 1);
      (final, [front] + fronts)
  }

  lemma {:induction false} EnqueueAllItems<T>(q: Queue<T>, xs: seq<T>)
    ensures EnqueueAll(q, xs).items == q.items + xs
    decreases |xs|
  {
    if xs != [] {
      EnqueueAllItems(Enqueue(q, xs[0]), xs[1..]);
      assert q.items + [xs[0]] + xs[1..] == q.items + xs;
    }
  }

  lemma {:induction false} DrainInOrder<T>(ys: seq<T>)
    ensures DequeueTimes(Queue(ys), |ys|) == (New(), Somes(ys))
    decreases |ys|
  {
    if ys != [] {
      DrainInOrder(ys[1..]);
    }
  }

  /** Enqueueing `xs` and then dequeueing as many times as there are items yields the items
      already stored followed by `xs`, each in the order it arrived, and ends empty. */
  lemma Fifo<T>(q: Queue<T>, xs: seq<T>)
    ensures Size(EnqueueAll(q, xs)) == Size(q) + |xs|
    ensures var (final, fronts) := DequeueTimes(EnqueueAll(q, xs), Size(q) + |xs|);
            IsEmpty(final) && fronts == Somes(q.items + xs)
  {
    EnqueueAllItems(q, xs);
    assert EnqueueAll(q, xs) == Queue(q.items + xs);
    DrainInOrder(q.items + xs);
  }

  /** `size()` counts what the queue will give back: dequeueing that many times returns every
      stored item, front first, and leaves an empty queue. */
  lemma DequeueAll<T>(q: Queue<T>)
    ensures DequeueTimes(q, Size(q)) == (New(), Somes(q.items))
  {
    assert q == Queue(q.items);
    DrainInOrder(q.items);
  }
}
