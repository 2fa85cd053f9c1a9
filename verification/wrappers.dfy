/** The absence signal the list, stack and queue operations return on an empty collection. */
module Wrappers {

  /** `None` plays the role of the source's `None` return value. */
  datatype Option<+T> = None | Some(value: T)

  /** Each element of `xs` wrapped in `Some`, in order: what a run of successful removals
      returns. */
  function Somes<T>(xs: seq<T>): (r: seq<Option<T>>)
    ensures |r| == |xs|
    ensures forall k :: 0 <= k < |xs| ==> r[k] == Some(xs[k])
  {
    if xs == [] then [] else [Some(xs[0])] + Somes(xs[1..])
  }
}
