/** The mask: 1.0 at every location whose temporal mean is at or below the threshold,
    0.0 elsewhere (`np.zeros`, then `mask[np.where(mu <= thresh)[0]] = 1.0`). */
module Mask {

  /** The mask as a value: same length as the means, binary, and 1.0 exactly where the
      mean is at or below the threshold. */
  function MaskOf(mu: seq<real>, thresh: real): (m: seq<real>)
    ensures |m| == |mu|
    ensures forall i :: 0 <= i < |mu| ==> m[i] == 0.0 || m[i] == 1.0
    ensures forall i :: 0 <= i < |mu| ==> (m[i] == 1.0 <==> mu[i] <= thresh)
  {
    seq(|mu|, i requires 0 <= i < |mu| => if mu[i] <= thresh then 1.0 else 0.0)
  }

  /** The mask is monotone in the mean: a location with a smaller or equal mean than a
      marked location is marked too. */
  lemma MaskMonotone(mu: seq<real>, thresh: real, i: nat, j: nat)
    requires i < |mu| && j < |mu|
    requires mu[i] <= mu[j] && MaskOf(mu, thresh)[j] == 1.0
    ensures MaskOf(mu, thresh)[i] == 1.0
  {
  }

  /** Raising the threshold never unmarks a location. */
  lemma MaskGrowsWithThreshold(mu: seq<real>, t1: real, t2: real, i: nat)
    requires i < |mu| && t1 <= t2 && MaskOf(mu, t1)[i] == 1.0
    ensures MaskOf(mu, t2)[i] == 1.0
  {
  }

  /** The fancy-index assignment: writes 1.0 at every index whose mean is at or below the
      threshold and leaves every other entry as it was. */
  method MarkAtOrBelow(mask: array<real>, mu: seq<real>, thresh: real)
    requires mask.Length == |mu|
    modifies mask
    ensures forall i :: 0 <= i < |mu| ==> mask[i] == if mu[i] <= thresh then 1.0 else old(mask[i])
  {
    var i := 0;
    while i < |mu|
      invariant 0 <= i <= |mu|
      invariant forall k :: 0 <= k < i ==> mask[k] == if mu[k] <= thresh then 1.0 else old(mask[k])
      invariant forall k :: i <= k < |mu| ==> mask[k] == old(mask[k])
    {
      if mu[i] <= thresh {
        mask[i] := 1.0;
      }
      i := i + 1;
    }
  }

  /** A fresh zero-filled array of the means' length, then marked: the mask value. */
  method BuildMask(mu: seq<real>, thresh: real) returns (mask: array<real>)
    ensures fresh(mask)
    ensures mask[..] == MaskOf(mu, thresh)
  {
    mask := new real[|mu|](_ => 0.0);
    MarkAtOrBelow(mask, mu, thresh);
    assert mask[..] == MaskOf(mu, thresh);
  }
}
