/** The strict local-minimum scan `argrelextrema(y, np.less)` with its defaults
    (order 1, clip mode), as `createMask` uses it on the sampled density. */
module Minima {

  /** Clip mode: an index past either end is replaced by the nearest end. */
  function Clip(i: int, n: nat): (r: nat)
    requires n > 0
    ensures r < n
    ensures 0 <= i < n ==> r == i
    ensures i < 0 ==> r == 0
    ensures i >= n ==> r == n - 1
  {
    if i < 0 then 0 else if i >= n then n - 1 else i
  }

  /** The test the scan applies at index i: strictly below both (clipped) neighbours. */
  predicate IsClippedMin(y: seq<real>, i: nat)
    requires i < |y|
  {
    y[i] < y[Clip(i + 1, |y|)] && y[i] < y[Clip(i - 1, |y|)]
  }

  /** The reference notion: an interior index strictly below both of its neighbours. */
  predicate IsInteriorMin(y: seq<real>, i: int)
  {
    1 <= i <= |y| - 2 && y[i] < y[i - 1] && y[i] < y[i + 1]
  }

  predicate StrictlyIncreasing(s: seq<nat>)
  {
    forall a, b :: 0 <= a < b < |s| ==> s[a] < s[b]
  }

  /** Under clipping an endpoint is compared with itself, so the clipped test holds
      exactly at interior minima. */
  lemma ClippedMinIsInteriorMin(y: seq<real>, i: nat)
    requires i < |y|
    ensures IsClippedMin(y, i) <==> IsInteriorMin(y, i)
  {
    if i == 0 {
      assert Clip(i - 1, |y|) == 0;
    } else if i == |y| - 1 {
      assert Clip(i + 1, |y|) == |y| - 1;
    }
  }

  /** The indices from i on that pass the clipped test, in increasing order. */
  function MinimaFrom(y: seq<real>, i: nat): (r: seq<nat>)
    requires i <= |y|
    ensures StrictlyIncreasing(r)
    ensures forall k :: k in r ==> i <= k < |y| && IsClippedMin(y, k)
    ensures forall k: nat :: i <= k < |y| && IsClippedMin(y, k) ==> k in r
    ensures r == [] <==> forall k: nat :: i <= k < |y| ==> !IsClippedMin(y, k)
    decreases |y| - i
  {
    if i == |y| then []
    else
      var rest := MinimaFrom(y, i + 1);
      if IsClippedMin(y, i) then
        assert forall b :: 0 <= b < |rest| ==> rest[b] in rest;
        [i] + rest
      else rest
  }

  /** `argrelextrema(y, np.less)[0]`: every interior strict local minimum, and nothing
      else, in strictly increasing order. */
  function LocalMinima(y: seq<real>): (r: seq<nat>)
    ensures StrictlyIncreasing(r)
    ensures forall j :: 0 <= j < |r| ==> 1 <= r[j] <= |y| - 2
    ensures forall k: int :: k in r <==> IsInteriorMin(y, k)
    ensures r == [] <==> forall k: int :: !IsInteriorMin(y, k)
  {
    var r := MinimaFrom(y, 0);
    forall k: nat | k < |y|
      ensures IsClippedMin(y, k) <==> IsInteriorMin(y, k)
    {
      ClippedMinIsInteriorMin(y, k);
    }
    assert forall j :: 0 <= j < |r| ==> r[j] in r;
    r
  }

  /** The first and last samples are never reported. */
  lemma EndpointsNeverMinima(y: seq<real>)
    ensures 0 !in LocalMinima(y)
    ensures |y| - 1 !in LocalMinima(y)
  {
  }

  /** Fewer than three samples have no interior, so nothing is reported. */
  lemma ShortHasNoMinima(y: seq<real>)
    requires |y| < 3
    ensures LocalMinima(y) == []
  {
  }

  /** A strictly decreasing density has no local minimum. */
  lemma DecreasingHasNoMinima(y: seq<real>)
    requires forall i :: 0 <= i < |y| - 1 ==> y[i + 1] < y[i]
    ensures LocalMinima(y) == []
  {
    forall k: int | 1 <= k <= |y| - 2
      ensures !IsInteriorMin(y, k)
    {
      assert y[k + 1] < y[k];
    }
  }

  /** A strictly increasing density has no local minimum. */
  lemma IncreasingHasNoMinima(y: seq<real>)
    requires forall i :: 0 <= i < |y| - 1 ==> y[i] < y[i + 1]
    ensures LocalMinima(y) == []
  {
    forall k: int | 1 <= k <= |y| - 2
      ensures !IsInteriorMin(y, k)
    {
      assert y[k - 1] < y[k];
    }
  }

  /** A flat density (all samples equal) has no strict local minimum. */
  lemma FlatHasNoMinima(y: seq<real>)
    requires forall i :: 0 <= i < |y| ==> y[i] == y[0]
    ensures LocalMinima(y) == []
  {
    forall k: int | 1 <= k <= |y| - 2
      ensures !IsInteriorMin(y, k)
    {
      assert y[k] == y[k - 1];
    }
  }
}
