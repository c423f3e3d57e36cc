/**
 * Filling interior low points (`SurfMesh.handle_low_points`).
 *
 * Each low point whose height above `base` is at least 0.5 % of the highest
 * point's height above `base` is accepted and given, as its height change,
 * the mean height of its closed neighbourhood; the others are rejected and
 * keep a zero change. The changes are then carried uphill by `its` rounds of
 * the transposed downhill operator, each scaled by 1.001, and the result is
 * the elementwise maximum of the old heights and the carried changes.
 */
module LowPoints {
  import opened Numeric
  import opened Flow

  /** Every low point and every neighbourhood entry names a node, and every neighbourhood is non-empty. */
  predicate Tables(height: Field, lowPoints: seq<int>, loHi: seq<seq<int>>)
  {
    && |loHi| == |height|
    && (forall k :: 0 <= k < |lowPoints| ==> 0 <= lowPoints[k] < |height|)
    && (forall i :: 0 <= i < |loHi| ==> |loHi[i]| > 0)
    && (forall i, k :: 0 <= i < |loHi| && 0 <= k < |loHi[i]| ==> 0 <= loHi[i][k] < |height|)
  }

  /** The 0.5 % test: a low point is filled unless it sits too close to `base`. */
  predicate Accepted(height: Field, base: real, p: int)
    requires 0 <= p < |height|
  {
    !(height[p] - base < 0.005 * (Max(height) - base))
  }

  /** The fill value of an accepted low point: the mean height of its closed neighbourhood. */
  function FillValue(height: Field, loHi: seq<seq<int>>, p: int): real
    requires |loHi| == |height| && 0 <= p < |height| && |loHi[p]| > 0
    requires forall k :: 0 <= k < |loHi[p]| ==> 0 <= loHi[p][k] < |height|
  {
    Mean(height, loHi[p])
  }

  /** `delta_height` after the loop: the fill value at accepted low points, zero elsewhere. */
  function Deltas(height: Field, base: real, lowPoints: seq<int>, loHi: seq<seq<int>>): (delta: Field)
    requires Tables(height, lowPoints, loHi)
    ensures |delta| == |height|
  {
    seq(|height|, i requires 0 <= i < |height| =>
          if i in lowPoints && Accepted(height, base, i) then FillValue(height, loHi, i) else 0.0)
  }

  /** The number of accepted entries of a low-point list. */
  function CountAccepted(height: Field, base: real, lowPoints: seq<int>): nat
    requires forall k :: 0 <= k < |lowPoints| ==> 0 <= lowPoints[k] < |height|
  {
    if |lowPoints| == 0 then 0
    else
      CountAccepted(height, base, lowPoints[..|lowPoints| - 1])
        + (if Accepted(height, base, lowPoints[|lowPoints| - 1]) then 1 else 0)
  }

  /** `its` rounds of `global_dH = 1.001 * multTranspose(global_dH)`. */
  function Propagate(multT: Field -> Field, dH: Field, its: nat): (r: Field)
    requires KeepsLength(multT)
    ensures |r| == |dH|
  {
    if its == 0 then dH else Scale(1.001, multT(Propagate(multT, dH, its - 1)))
  }

  /** What `handle_low_points` returns. */
  function FilledHeight(height: Field, base: real, lowPoints: seq<int>, loHi: seq<seq<int>>,
                        multT: Field -> Field, its: nat): Field
    requires Tables(height, lowPoints, loHi) && KeepsLength(multT)
  {
    if |lowPoints| == 0 then height
    else Maximum(height, Propagate(multT, Deltas(height, base, lowPoints, loHi), its))
  }

  /**
   * `handle_low_points` from the low-point list on: the early return, the
   * accept/reject loop with its counters, the propagation rounds and the
   * final maximum. No height ever goes down, and every low point is counted
   * once as fixed or as rejected.
   */
  method FillLowPoints(height: Field, base: real, lowPoints: seq<int>, loHi: seq<seq<int>>,
                       multT: Field -> Field, its: nat)
    returns (newHeight: Field, fixed: nat, rejected: nat)
    requires Tables(height, lowPoints, loHi) && KeepsLength(multT)
    ensures newHeight == FilledHeight(height, base, lowPoints, loHi, multT, its)
    ensures |newHeight| == |height| && forall i :: 0 <= i < |height| ==> newHeight[i] >= height[i]
    ensures |lowPoints| == 0 ==> newHeight == height
    ensures fixed == CountAccepted(height, base, lowPoints) && fixed + rejected == |lowPoints|
  {
    if |lowPoints| == 0 {
      return height, 0, 0;
    }
    assert 0 <= lowPoints[0] < |height|;
    var top := Max(height);
    var delta := new real[|height|](_ => 0.0);
    fixed, rejected := 0, 0;
    for k := 0 to |lowPoints|
      invariant fixed == CountAccepted(height, base, lowPoints[..k]) && fixed + rejected == k
      invariant forall i :: 0 <= i < |height| ==>
                  delta[i] == if i in lowPoints[..k] && Accepted(height, base, i) then FillValue(height, loHi, i) else 0.0
    {
      var point := lowPoints[k];
      assert lowPoints[..k + 1] == lowPoints[..k] + [point];
      if height[point] - base < 0.005 * (top - base) {
        rejected := rejected + 1;
        continue;
      }
      fixed := fixed + 1;
      delta[point] := Mean(height, loHi[point]);
    }
    assert lowPoints[..|lowPoints|] == lowPoints;
    var dH := delta[..];
    assert dH == Deltas(height, base, lowPoints, loHi);
    for p := 0 to its
      invariant dH == Propagate(multT, Deltas(height, base, lowPoints, loHi), p)
    {
      dH := Scale(1.001, multT(dH));
    }
    newHeight := Maximum(height, dH);
  }

  /**
   * With no propagation rounds the filled heights stay at or below the
   * highest point, provided that point is not below zero: every fill value is
   * a mean of existing heights and every other change is zero.
   */
  lemma FillWithoutPropagationBounded(height: Field, base: real, lowPoints: seq<int>, loHi: seq<seq<int>>,
                                      multT: Field -> Field)
    requires Tables(height, lowPoints, loHi) && KeepsLength(multT)
    requires |height| > 0 && Max(height) >= 0.0
    ensures forall i :: 0 <= i < |height| ==> FilledHeight(height, base, lowPoints, loHi, multT, 0)[i] <= Max(height)
  {
    var delta := Deltas(height, base, lowPoints, loHi);
    forall i | 0 <= i < |height| ensures delta[i] <= Max(height) {
      if i in lowPoints && Accepted(height, base, i) {
        MeanBounds(height, loHi[i], Min(height), Max(height));
      }
    }
  }

  /**
   * With no propagation rounds, an accepted low point ends at the larger of
   * its height and its neighbourhood mean; any other node below zero is
   * lifted to zero by the maximum with the zero change.
   */
  lemma FillWithoutPropagation(height: Field, base: real, lowPoints: seq<int>, loHi: seq<seq<int>>,
                               multT: Field -> Field, i: int)
    requires Tables(height, lowPoints, loHi) && KeepsLength(multT)
    requires |lowPoints| > 0 && 0 <= i < |height|
    ensures i in lowPoints && Accepted(height, base, i) ==>
              FilledHeight(height, base, lowPoints, loHi, multT, 0)[i]
                == (if height[i] >= FillValue(height, loHi, i) then height[i] else FillValue(height, loHi, i))
    ensures !(i in lowPoints && Accepted(height, base, i)) && height[i] < 0.0 ==>
              FilledHeight(height, base, lowPoints, loHi, multT, 0)[i] == 0.0
  {
  }
}
