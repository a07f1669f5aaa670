/** JavaScript's `Array.prototype.find`: the first element satisfying a predicate. */
module JsArray {
  import opened Wrappers

  /** The index of the first element of `xs` satisfying `p`, or -1. */
  function FindIndex<T>(xs: seq<T>, p: T -> bool): (k: int)
    ensures -1 <= k < |xs|
    ensures k == -1 <==> forall j :: 0 <= j < |xs| ==> !p(xs[j])
    ensures k >= 0 ==> p(xs[k]) && forall j :: 0 <= j < k ==> !p(xs[j])
  {
    if xs == [] then -1
    else if p(xs[0]) then 0
    else
      var k := FindIndex(xs[1..], p);
      if k == -1 then -1 else k + 1
  }

  /** `xs.find(p)`: the first element satisfying `p`, or `undefined` (here `None`). */
  function Find<T>(xs: seq<T>, p: T -> bool): (r: Option<T>)
    ensures r.None? <==> forall x :: x in xs ==> !p(x)
    ensures r.Some? ==> r.value in xs && p(r.value)
    ensures r.Some? ==> exists k :: 0 <= k < |xs| && xs[k] == r.value && forall j :: 0 <= j < k ==> !p(xs[j])
  {
    var k := FindIndex(xs, p);
    if k == -1 then None else Some(xs[k])
  }
}
