/** The first-match linear scan that every lookup of the presenter is built
    from: walk a sequence front to back and stop at the first element that
    matches. */
module Scan {
  import opened Wrappers

  /** `i` is the position of the first element of `xs` that `matches`. */
  ghost predicate IsFirst<T>(xs: seq<T>, matches: T -> bool, i: int) {
    && 0 <= i < |xs|
    && matches(xs[i])
    && forall j | 0 <= j < i :: !matches(xs[j])
  }

  /** Position of the first element that `matches`, or `None` when no
      element does. */
  function FirstIndex<T>(xs: seq<T>, matches: T -> bool): (r: Option<nat>)
    ensures r.Some? ==> IsFirst(xs, matches, r.value)
    ensures r.None? <==> forall j | 0 <= j < |xs| :: !matches(xs[j])
  {
    if |xs| == 0 then None
    else if matches(xs[0]) then Some(0)
    else match FirstIndex(xs[1..], matches)
      case None => None
      case Some(k) => Some(k + 1)
  }
}
