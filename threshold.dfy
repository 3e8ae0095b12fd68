/** Threshold selection: the largest grid value among the found minima
    (`np.max(self.xgrid[self.found_min[0]])`). */
module Threshold {
  import opened Outcomes
  import Stats
  import Grid
  import Minima

  /** The grid values at the given indices, in index order (`xgrid[found]`). */
  function Gather(x: seq<real>, idx: seq<nat>): (v: seq<real>)
    requires forall j :: 0 <= j < |idx| ==> idx[j] < |x|
    ensures |v| == |idx|
  {
    seq(|idx|, j requires 0 <= j < |idx| => x[idx[j]])
  }

  /** The threshold: fails when no minimum was found (the maximum of nothing), otherwise
      is the grid value at one of the found minima and no grid value at a found minimum
      exceeds it. */
  function SelectThreshold(x: seq<real>, found: seq<nat>): (r: Result<real>)
    requires forall j :: 0 <= j < |found| ==> found[j] < |x|
    ensures r.Err? <==> found == []
    ensures r.Err? ==> r.error == NoMinimumFound
    ensures r.Ok? ==> exists k :: k in found && r.value == x[k]
    ensures r.Ok? ==> forall k :: k in found ==> x[k] <= r.value
  {
    if found == [] then Err(NoMinimumFound)
    else
      var v := Gather(x, found);
      var t := Stats.Max(v);
      assert forall k :: k in found ==> exists j :: 0 <= j < |found| && found[j] == k && v[j] == x[k];
      Ok(t)
  }

  /** On an ascending grid with minima listed in increasing order, the threshold is the
      grid value at the rightmost minimum. */
  lemma ThresholdIsRightmostMinimum(x: seq<real>, found: seq<nat>)
    requires forall j :: 0 <= j < |found| ==> found[j] < |x|
    requires Grid.NonDecreasing(x) && Minima.StrictlyIncreasing(found) && found != []
    ensures SelectThreshold(x, found) == Ok(x[found[|found| - 1]])
  {
    var last := found[|found| - 1];
    assert last in found;
    var t := SelectThreshold(x, found).value;
    var k :| k in found && t == x[k];
    var j :| 0 <= j < |found| && found[j] == k;
    assert k <= last;
    assert x[k] <= x[last] <= t;
  }
}
