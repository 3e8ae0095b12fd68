/** The evaluation grid of `createMask` (`np.linspace(min, max, interp_fact)`) and the
    density sampled on it, idealised over `real`. */
module Grid {

  predicate NonDecreasing(s: seq<real>)
  {
    forall i, j :: 0 <= i <= j < |s| ==> s[i] <= s[j]
  }

  /** The distance between neighbouring points of an n-point grid from lo to hi. */
  function Step(lo: real, hi: real, n: nat): real
    requires n >= 2
  {
    (hi - lo) / ((n - 1) as real)
  }

  /** `n` evenly spaced points from lo to hi, both included; a one-point grid is just `[lo]`
      and an empty request gives an empty grid, as `np.linspace` does. */
  function Linspace(lo: real, hi: real, n: nat): (g: seq<real>)
    ensures |g| == n
    ensures n >= 1 ==> g[0] == lo
    ensures n >= 2 ==> g[n - 1] == hi
  {
    if n <= 1 then seq(n, _ => lo)
    else
      var d := Step(lo, hi, n);
      var g := seq(n, i => lo + (i as real) * d);
      assert g[n - 1] == lo + ((n - 1) as real) * d == hi;
      g
  }

  /** Neighbouring points of a grid of two or more are exactly one step apart. */
  lemma LinspaceUniform(lo: real, hi: real, n: nat, i: nat)
    requires n >= 2 && i + 1 < n
    ensures Linspace(lo, hi, n)[i + 1] - Linspace(lo, hi, n)[i] == Step(lo, hi, n)
  {
  }

  /** On an ascending range the grid ascends. */
  lemma LinspaceNonDecreasing(lo: real, hi: real, n: nat)
    requires lo <= hi
    ensures NonDecreasing(Linspace(lo, hi, n))
  {
    var g := Linspace(lo, hi, n);
    if n >= 2 {
      var d := Step(lo, hi, n);
      assert d >= 0.0;
      forall i, j | 0 <= i <= j < n
        ensures g[i] <= g[j]
      {
        assert g[j] - g[i] == ((j - i) as real) * d;
      }
    }
  }

  /** Every grid point lies in [lo, hi], and on a proper range every point but the last
      lies strictly below hi. */
  lemma LinspaceWithin(lo: real, hi: real, n: nat, i: nat)
    requires lo <= hi && i < n
    ensures lo <= Linspace(lo, hi, n)[i] <= hi
    ensures lo < hi && i < n - 1 ==> Linspace(lo, hi, n)[i] < hi
  {
    LinspaceNonDecreasing(lo, hi, n);
    var g := Linspace(lo, hi, n);
    if n >= 2 {
      var d := Step(lo, hi, n);
      assert hi - g[i] == ((n - 1 - i) as real) * d;
      if lo < hi {
        assert d > 0.0;
      }
    }
  }

  /** A grid over a single value repeats that value. */
  lemma LinspaceConstant(c: real, n: nat)
    ensures forall i :: 0 <= i < n ==> Linspace(c, c, n)[i] == c
  {
  }

  /** The density evaluated at every grid point (`self.density(self.xgrid)`). */
  function Sample(density: real -> real, g: seq<real>): (y: seq<real>)
    ensures |y| == |g|
  {
    seq(|g|, i requires 0 <= i < |g| => density(g[i]))
  }

  /** Grid points that coincide get the same density sample. */
  lemma SampleRespectsEqualPoints(density: real -> real, g: seq<real>, i: nat, j: nat)
    requires i < |g| && j < |g| && g[i] == g[j]
    ensures Sample(density, g)[i] == Sample(density, g)[j]
  {
  }
}
