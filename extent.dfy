/** The extent of a sequence of numbers, as `d3.min` and `d3.max` compute it:
    the smallest and largest value, or nothing (`undefined`) for an empty input. */
module Extent {

  datatype Option<T> = None | Some(value: T)

  /** `d3.min(xs)`: the least element, `None` when `xs` is empty. */
  function MinOf(xs: seq<int>): (r: Option<int>)
    ensures r.None? <==> |xs| == 0
    ensures r.Some? ==> r.value in xs && forall i :: 0 <= i < |xs| ==> r.value <= xs[i]
  {
    if |xs| == 0 then None
    else match MinOf(xs[1..])
      case None => Some(xs[0])
      case Some(m) => Some(if xs[0] <= m then xs[0] else m)
  }

  /** `d3.max(xs)`: the greatest element, `None` when `xs` is empty. */
  function MaxOf(xs: seq<int>): (r: Option<int>)
    ensures r.None? <==> |xs| == 0
    ensures r.Some? ==> r.value in xs && forall i :: 0 <= i < |xs| ==> xs[i] <= r.value
  {
    if |xs| == 0 then None
    else match MaxOf(xs[1..])
      case None => Some(xs[0])
      case Some(m) => Some(if xs[0] >= m then xs[0] else m)
  }

  /** In an ascending sequence the extent is the first and the last element. */
  lemma AscendingExtent(xs: seq<int>)
    requires |xs| > 0
    requires forall i, j :: 0 <= i < j < |xs| ==> xs[i] < xs[j]
    ensures MinOf(xs) == Some(xs[0]) && MaxOf(xs) == Some(xs[|xs| - 1])
  {
    assert xs[0] in xs && xs[|xs| - 1] in xs;
  }
}
