/** The `DTseries` object: per-location temporal means fixed at construction, and
    `createMask`, which fills in the grid, the density samples, the minima, the threshold
    and the mask, field by field. */
module DTSeries {
  import opened Outcomes
  import Stats
  import Grid
  import Minima
  import Threshold
  import Mask

  /** The evaluation grid `createMask` builds over the means' range. */
  function GridFor(mu: seq<real>, n: nat): (g: seq<real>)
    requires |mu| > 0
    ensures |g| == n
  {
    Grid.Linspace(Stats.Min(mu), Stats.Max(mu), n)
  }

  /** The minima found in the density sampled on that grid. */
  function MinimaFor(mu: seq<real>, density: real -> real, n: nat): (found: seq<nat>)
    requires |mu| > 0
    ensures forall j :: 0 <= j < |found| ==> 1 <= found[j] <= n - 2
  {
    Minima.LocalMinima(Grid.Sample(density, GridFor(mu, n)))
  }

  /** Whatever the density samples on the grid, the threshold is the grid value at their
      rightmost local minimum. */
  lemma ThresholdAtRightmostMinimum(mu: seq<real>, y: seq<real>, n: nat)
    requires |mu| > 0 && |y| == n
    ensures var found := Minima.LocalMinima(y);
      found != [] ==>
        Threshold.SelectThreshold(GridFor(mu, n), found) == Ok(GridFor(mu, n)[found[|found| - 1]])
  {
    var found := Minima.LocalMinima(y);
    if found != [] {
      Grid.LinspaceNonDecreasing(Stats.Min(mu), Stats.Max(mu), n);
      Threshold.ThresholdIsRightmostMinimum(GridFor(mu, n), found);
    }
  }

  /** Means that are all equal give a one-value grid, a flat density sample and hence no
      threshold. */
  lemma ConstantMeansHaveNoThreshold(mu: seq<real>, density: real -> real, n: nat)
    requires |mu| > 0 && Stats.Min(mu) == Stats.Max(mu)
    ensures Threshold.SelectThreshold(GridFor(mu, n), MinimaFor(mu, density, n)) == Err(NoMinimumFound)
  {
    var g := GridFor(mu, n);
    Grid.LinspaceConstant(Stats.Min(mu), n);
    var y := Grid.Sample(density, g);
    forall i | 0 <= i < |y|
      ensures y[i] == y[0]
    {
      Grid.SampleRespectsEqualPoints(density, g, i, 0);
    }
    Minima.FlatHasNoMinima(y);
  }

  /** A threshold, when there is one, lies at or above the smallest mean and strictly
      below the largest. */
  lemma ThresholdSplitsMeans(mu: seq<real>, density: real -> real, n: nat)
    requires |mu| > 0
    ensures var r := Threshold.SelectThreshold(GridFor(mu, n), MinimaFor(mu, density, n));
      r.Ok? ==> Stats.Min(mu) <= r.value < Stats.Max(mu)
  {
    var lo, hi := Stats.Min(mu), Stats.Max(mu);
    var g, found := GridFor(mu, n), MinimaFor(mu, density, n);
    var r := Threshold.SelectThreshold(g, found);
    if r.Ok? {
      if lo == hi {
        ConstantMeansHaveNoThreshold(mu, density, n);
      } else {
        var k :| k in found && r.value == g[k];
        var j :| 0 <= j < |found| && found[j] == k;
        Grid.LinspaceWithin(lo, hi, n, k);
      }
    }
  }

  /** When a threshold exists the mask marks some location (one with the smallest mean)
      and leaves some location unmarked (one with the largest mean). */
  lemma MaskIsProperSplit(mu: seq<real>, density: real -> real, n: nat)
    requires |mu| > 0
    ensures var r := Threshold.SelectThreshold(GridFor(mu, n), MinimaFor(mu, density, n));
      r.Ok? ==>
        (exists i :: 0 <= i < |mu| && Mask.MaskOf(mu, r.value)[i] == 1.0) &&
        (exists i :: 0 <= i < |mu| && Mask.MaskOf(mu, r.value)[i] == 0.0)
  {
    var r := Threshold.SelectThreshold(GridFor(mu, n), MinimaFor(mu, density, n));
    if r.Ok? {
      ThresholdSplitsMeans(mu, density, n);
      var m := Mask.MaskOf(mu, r.value);
      var lo :| 0 <= lo < |mu| && mu[lo] == Stats.Min(mu);
      var hi :| 0 <= hi < |mu| && mu[hi] == Stats.Max(mu);
      assert m[lo] == 1.0;
      assert m[hi] == 0.0;
    }
  }

  class DTseries {
    /** The fitted density, evaluated point by point. */
    const density: real -> real
    /** The temporal mean of every location (`mat_mu`). */
    const mu: seq<real>
    var xgrid: seq<real>
    var ygrid: seq<real>
    var foundMin: seq<nat>
    var xThresh: Option<real>
    var mask: array?<real>

    /** The threshold and the mask always come from the same successful call, even after
        a later call has failed. */
    ghost predicate Valid()
      reads this, mask
    {
      |ygrid| == |xgrid| &&
      (forall j :: 0 <= j < |foundMin| ==> foundMin[j] < |xgrid|) &&
      (xThresh.Some? <==> mask != null) &&
      (mask != null ==> mask[..] == Mask.MaskOf(mu, xThresh.value))
    }

    /** Takes the (locations x timepoints) matrix and the density fitted to its row means;
        keeps the row means. No grid, threshold or mask exists yet. */
    constructor (mat: seq<seq<real>>, density: real -> real)
      requires forall i :: 0 <= i < |mat| ==> |mat[i]| > 0
      ensures Valid()
      ensures this.mu == Stats.RowMeans(mat) && this.density == density
      ensures xgrid == [] && ygrid == [] && foundMin == []
      ensures xThresh == None && mask == null
    {
      this.mu := Stats.RowMeans(mat);
      this.density := density;
      xgrid, ygrid, foundMin := [], [], [];
      xThresh, mask := None, null;
    }

    /** `createMask(plot=False, interp_fact)`: each exception leaves the fields assigned
        before it was raised and nothing after. */
    method CreateMask(interpFact: int := 1024) returns (outcome: Outcome)
      requires Valid()
      modifies this
      ensures Valid()
      ensures |mu| == 0 ==> outcome == Fail(EmptyMeanVector) && unchanged(this)
      ensures |mu| > 0 && interpFact < 0 ==> outcome == Fail(NegativeSampleCount) && unchanged(this)
      ensures |mu| > 0 && interpFact >= 0 ==>
        xgrid == GridFor(mu, interpFact) &&
        ygrid == Grid.Sample(density, xgrid) &&
        foundMin == Minima.LocalMinima(ygrid)
      ensures |mu| > 0 && interpFact >= 0 && foundMin == [] ==>
        outcome == Fail(NoMinimumFound) && xThresh == old(xThresh) && mask == old(mask)
      ensures |mu| > 0 && interpFact >= 0 && foundMin != [] ==>
        outcome == Pass && xThresh.Some? &&
        Threshold.SelectThreshold(xgrid, foundMin) == Ok(xThresh.value) &&
        mask != null && fresh(mask) && mask[..] == Mask.MaskOf(mu, xThresh.value)
    {
      if |mu| == 0 {
        return Fail(EmptyMeanVector);
      }
      if interpFact < 0 {
        return Fail(NegativeSampleCount);
      }
      xgrid := GridFor(mu, interpFact);
      ygrid := Grid.Sample(density, xgrid);
      foundMin := Minima.LocalMinima(ygrid);
      assert |xgrid| == |ygrid|;
      var r := Threshold.SelectThreshold(xgrid, foundMin);
      if r.Err? {
        return Fail(r.error);
      }
      xThresh := Some(r.value);
      mask := Mask.BuildMask(mu, r.value);
      outcome := Pass;
    }
  }
}
