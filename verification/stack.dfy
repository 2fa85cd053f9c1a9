/** `Stack` (data_structures/stack/stack.py): a LIFO adapter over a double-ended sequence. */
module Stacks {
  import opened Wrappers
  import opened Sequences

  /** The stored items, oldest first; the top of the stack is the last item. */
  datatype Stack<T> = Stack(items: seq<T>)

  /** A stack with nothing stored. */
  function New<T>(): (s: Stack<T>)
    ensures Size(s) == 0
  {
    Stack([])
  }

  /** The number of stored items. */
  function Size<T>(s: Stack<T>): (r: nat)
  {
    |s.items|
  }

  /** True exactly when the stack holds no item. */
  function IsEmpty<T>(s: Stack<T>): (r: bool)
    ensures r <==> Size(s) == 0
    ensures r <==> s == New()
  {
    |s.items| == 0
  }

  /** The most recently pushed item, without removing it; `None` on an empty stack. */
  function Peek<T>(s: Stack<T>): (r: Option<T>)
    ensures r == None <==> IsEmpty(s)
  {
    if IsEmpty(s) then None else Some(s.items[|s.items| - 1])
  }

  /** Places `x` on top: one item more, and `x` is what `Peek` now sees. */
  function Push<T>(s: Stack<T>, x: T): (r: Stack<T>)
    ensures Size(r) == Size(s) + 1
    ensures Peek(r) == Some(x)
  {
    Stack(s.items + [x])
  }

  /** Removes and returns the top item, undoing the `Push` that placed it; an empty stack is
      left as it is and yields `None`. */
  function Pop<T>(s: Stack<T>): (r: (Stack<T>, Option<T>))
    ensures IsEmpty(s) ==> r == (s, None)
    ensures !IsEmpty(s) ==> r.1 == Peek(s) && Size(r.0) == Size(s) - 1 && Push(r.0, r.1.value) == s
  {
    if IsEmpty(s) then (s, None) else (Stack(s.items[..|s.items| - 1]), Some(s.items[|s.items| - 1]))
  }

  /** `push(x)` followed by `pop()` returns `x` and restores the previous stack. */
  lemma PushPop<T>(s: Stack<T>, x: T)
    ensures Pop(Push(s, x)) == (s, Some(x))
  {
  }

  /** The stack after pushing `xs` in order. */
  function PushAll<T>(s: Stack<T>, xs: seq<T>): (r: Stack<T>)
    decreases |xs|
  {
    if xs == [] then s else Push(PushAll(s, xs[..|xs| - 1]), xs[|xs| - 1])
  }

  /** Pushing `xs` appends them, in order, after the items already stored. */
  lemma {:induction false} PushAllItems<T>(s: Stack<T>, xs: seq<T>)
    ensures PushAll(s, xs).items == s.items + xs
    decreases |xs|
  {
    if xs != [] {
      PushAllItems(s, xs[..|xs| - 1]);
      assert s.items + xs[..|xs| - 1] + [xs[|xs| - 1]] == s.items + xs;
    }
  }

  /** Pops `k` times, collecting the results in order. */
  function PopTimes<T>(s: Stack<T>, k: nat): (r: (Stack<T>, seq<Option<T>>))
    decreases k
  {
    if k == 0 then (s, [])
    else
      var (rest, top) := Pop(s);
      var (final, tops) := PopTimes(rest, k - 1);
      (final, [top] + tops)
  }

  /** Pushing `xs` adds `|xs|` items; popping that many times yields `xs` newest first and
      leaves the stack as it was before the pushes. */
  lemma {:induction false} Lifo<T>(s: Stack<T>, xs: seq<T>)
    ensures Size(PushAll(s, xs)) == Size(s) + |xs|
    ensures PopTimes(PushAll(s, xs), |xs|) == (s, Somes(Reverse(xs)))
    decreases |xs|
  {
    if xs != [] {
      var init := xs[..|xs| - 1];
      Lifo(s, init);
      PushPop(PushAll(s, init), xs[|xs| - 1]);
      ReverseFromBack(xs);
    }
  }

  /** `size()` counts what the stack will give back: popping that many times returns every
      stored item, newest first, and leaves an empty stack. */
  lemma PopAll<T>(s: Stack<T>)
    ensures PopTimes(s, Size(s)) == (New(), Somes(Reverse(s.items)))
  {
    PushAllItems(New(), s.items);
    assert PushAll(New(), s.items) == s;
    Lifo(New(), s.items);
  }
}
