/** Reductions over sequences of reals: the temporal mean of each location's time course,
    and the minimum and maximum that bound the evaluation grid and pick the threshold. */
module Stats {

  function Sum(s: seq<real>): real
  {
    if s == [] then 0.0 else s[0] + Sum(s[1..])
  }

  /** The smallest element of a non-empty sequence (`ndarray.min`). */
  function Min(s: seq<real>): (r: real)
    requires |s| > 0
    ensures exists i :: 0 <= i < |s| && s[i] == r
    ensures forall i :: 0 <= i < |s| ==> r <= s[i]
  {
    if |s| == 1 then s[0]
    else
      var m := Min(s[1..]);
      if s[0] <= m then s[0] else m
  }

  /** The largest element of a non-empty sequence (`ndarray.max`, `np.max`). */
  function Max(s: seq<real>): (r: real)
    requires |s| > 0
    ensures exists i :: 0 <= i < |s| && s[i] == r
    ensures forall i :: 0 <= i < |s| ==> s[i] <= r
  {
    if |s| == 1 then s[0]
    else
      var m := Max(s[1..]);
      if s[0] >= m then s[0] else m
  }

  /** A sum of elements that all lie in [lo, hi] lies in [n * lo, n * hi]. */
  lemma {:induction false} SumBetween(s: seq<real>, lo: real, hi: real)
    requires forall i :: 0 <= i < |s| ==> lo <= s[i] <= hi
    ensures (|s| as real) * lo <= Sum(s) <= (|s| as real) * hi
  {
    if s != [] {
      SumBetween(s[1..], lo, hi);
    }
  }

  /** Dividing by a positive count keeps the bounds of a sum scaled by that count. */
  lemma DivideBetween(a: real, n: real, lo: real, hi: real)
    requires n > 0.0
    requires n * lo <= a <= n * hi
    ensures lo <= a / n <= hi
  {
    assert (a / n) * n == a;
  }

  /** The arithmetic mean of one location's samples (`np.mean` over a row). */
  function Mean(s: seq<real>): (m: real)
    requires |s| > 0
    ensures Min(s) <= m <= Max(s)
  {
    SumBetween(s, Min(s), Max(s));
    var n := |s| as real;
    DivideBetween(Sum(s), n, Min(s), Max(s));
    Sum(s) / n
  }

  /** A location whose samples are all equal has that value as its mean. */
  lemma MeanOfConstant(s: seq<real>, c: real)
    requires |s| > 0
    requires forall i :: 0 <= i < |s| ==> s[i] == c
    ensures Mean(s) == c
  {
    assert Min(s) == c;
    assert Max(s) == c;
  }

  /** The per-location temporal means (`np.mean(mat, axis = 1)`), one per row, in row order. */
  function RowMeans(mat: seq<seq<real>>): (mu: seq<real>)
    requires forall i :: 0 <= i < |mat| ==> |mat[i]| > 0
    ensures |mu| == |mat|
    ensures forall i :: 0 <= i < |mat| ==> Min(mat[i]) <= mu[i] <= Max(mat[i])
  {
    seq(|mat|, i requires 0 <= i < |mat| => Mean(mat[i]))
  }
}
