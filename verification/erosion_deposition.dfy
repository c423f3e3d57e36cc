/**
 * The stream-power erosion and deposition rates
 * (`SurfMesh.stream_power_erosion_deposition_rate`).
 *
 * Stream power is the smoothed product of the cumulative flow rate and the
 * slope; the erosion rate is a fixed fraction of it. Eroded material carried
 * beyond the local carrying capacity is the excess, and the deposition is the
 * excess minus what the downhill operator passes on. Deposition is clipped to
 * be non-negative, rescaled by `depo_sum / (depo_sum + 1e-12)`, zeroed at the
 * interior low points, and on flat spots replaced by a local smoothing of the
 * flat-spot deposition.
 */
module Erosion {
  import opened Wrappers
  import opened Numeric
  import opened Smoothing
  import opened Flow
  import opened Classification

  /** The keyword arguments of `stream_power_erosion_deposition_rate`. */
  datatype ErosionParams = ErosionParams(
    efficiency: real,
    smoothPower: nat,
    smoothLowPoints: nat,
    smoothErosionRate: nat,
    smoothDepositionRate: nat,
    smoothOperator: Option<Smoother>,
    centreWeightU: real,
    centreWeight: real)

  /** The defaults: efficiency 0.01, three rounds of stream-power smoothing, two of each other smoothing, streamwise smoothing, centre weights 0.5. */
  const DefaultParams := ErosionParams(0.01, 3, 2, 2, 2, None, 0.5, 0.5)

  /** Every node area is positive, so dividing by the areas is defined. */
  predicate PositiveAreas(area: Field)
  {
    forall i :: 0 <= i < |area| ==> area[i] > 0.0
  }

  /** `uphill_smoothing(cumulative_flow(area * rain) / area * slope, smooth_power, centre_weight_u)`. */
  function StreamPower(ops: FlowOperators, area: Field, rain: Field, slope: Field, p: ErosionParams): (sp: Field)
    requires WellShaped(ops) && |area| == |rain| == |slope| && PositiveAreas(area)
    ensures |sp| == |area|
  {
    var cumulativeRain := ops.cumulativeFlow(Mul(area, rain));
    var flowRate := Div(cumulativeRain, area);
    ops.uphillSmoothing(Mul(flowRate, slope), p.smoothPower, p.centreWeightU)
  }

  /** `streamwise_smoothing(efficiency * stream_power, smooth_erosion_rate, centre_weight)`. */
  function ErosionRate(ops: FlowOperators, streamPower: Field, p: ErosionParams): (er: Field)
    requires WellShaped(ops)
    ensures |er| == |streamPower|
  {
    ops.streamwiseSmoothing(Scale(p.efficiency, streamPower), p.smoothErosionRate, p.centreWeight)
  }

  /**
   * `cumulative_eroded_material - np.minimum(cumulative_eroded_material, full_capacity_sediment_load)`:
   * the material carried beyond capacity, never negative.
   */
  function Excess(eroded: Field, load: Field): (excess: Field)
    requires |eroded| == |load|
    ensures |excess| == |eroded|
    ensures forall i :: 0 <= i < |excess| ==>
              excess[i] >= 0.0 && excess[i] == (if eroded[i] > load[i] then eroded[i] - load[i] else 0.0)
  {
    var limited := Minimum(eroded, load);
    Sub(eroded, limited)
  }

  /** `np.clip(x, lo, hi)`: every value lands in `[lo, hi]`, and values already there are kept. */
  function Clip(x: Field, lo: real, hi: real): (r: Field)
    requires lo <= hi
    ensures |r| == |x|
    ensures forall i :: 0 <= i < |r| ==> lo <= r[i] <= hi
    ensures forall i :: 0 <= i < |r| ==> (lo <= x[i] <= hi ==> r[i] == x[i])
    ensures forall i :: 0 <= i < |r| ==> (x[i] < lo ==> r[i] == lo) && (x[i] > hi ==> r[i] == hi)
  {
    seq(|x|, i requires 0 <= i < |x| => if x[i] < lo then lo else if x[i] > hi then hi else x[i])
  }

  /**
   * `depo_sum / (depo_sum + 1e-12)`. At `depo_sum == -1e-12` NumPy divides by
   * zero; the model uses zero there.
   */
  function RescaleFactor(depoSum: real): real
  {
    if depoSum + 0.000000000001 == 0.0 then 0.0 else depoSum / (depoSum + 0.000000000001)
  }

  /**
   * The sign and size of the rescale factor: a positive sum shrinks the
   * deposition slightly, a zero sum erases it, a sum just below zero flips
   * its sign, and a sum further below zero enlarges it.
   */
  lemma RescaleFactorRange(depoSum: real)
    ensures depoSum > 0.0 ==> 0.0 < RescaleFactor(depoSum) < 1.0
    ensures depoSum == 0.0 ==> RescaleFactor(depoSum) == 0.0
    ensures -0.000000000001 < depoSum < 0.0 ==> RescaleFactor(depoSum) < 0.0
    ensures depoSum < -0.000000000001 ==> RescaleFactor(depoSum) > 1.0
  {
    var d := depoSum + 0.000000000001;
    if depoSum > 0.0 {
      assert depoSum < d;
      DivideBelow(depoSum, d);
    } else if -0.000000000001 < depoSum < 0.0 {
      assert d > 0.0;
      NegativeOverPositive(depoSum, d);
    } else if depoSum < -0.000000000001 {
      assert d < 0.0 && depoSum < d;
      DivideAbove(depoSum, d);
    }
  }

  lemma DivideBelow(a: real, b: real)
    requires 0.0 < a < b
    ensures 0.0 < a / b < 1.0
  {
    var q := a / b;
    assert q * b == a;
    if q >= 1.0 {
      assert false;
    }
  }

  lemma NegativeOverPositive(a: real, b: real)
    requires a < 0.0 < b
    ensures a / b < 0.0
  {
  }

  lemma DivideAbove(a: real, b: real)
    requires a < b < 0.0
    ensures a / b > 1.0
  {
  }

  /** The raw deposition `excess - downhillMat.mult(excess)`. */
  function RawDeposition(ops: FlowOperators, excess: Field): (d: Field)
    requires WellShaped(ops)
    ensures |d| == |excess|
  {
    Sub(excess, ops.downhillMult(excess))
  }

  /** The deposition after clipping to `[0, 1e99]` and the global rescale. */
  function Rescaled(raw: Field): (d: Field)
    ensures |d| == |raw|
  {
    Scale(RescaleFactor(Sum(raw)), Clip(raw, 0.0, 1.0e99))
  }

  /** `deposition[low_points] = 0.0`: zero at each listed node, unchanged elsewhere. */
  function ZeroAt(d: Field, lowPoints: seq<int>): (r: Field)
    ensures |r| == |d|
  {
    seq(|d|, i requires 0 <= i < |d| => if i in lowPoints then 0.0 else d[i])
  }

  /** The deposition kept for smoothing: its flat-spot values, zero elsewhere. */
  function FlatOnly(d: Field, flat: seq<bool>): (r: Field)
    requires |flat| == |d|
    ensures |r| == |d|
  {
    seq(|d|, i requires 0 <= i < |d| => if flat[i] then d[i] else 0.0)
  }

  /** The flat-spot write-back: the smoothed flat-only deposition at flat spots, the deposition elsewhere. */
  function FlatFill(m: SmoothingMatrix, d: Field, flat: seq<bool>): (r: Field)
    requires MatrixWellFormed(m) && |d| == |flat| == |m.diagonal|
    ensures |r| == |d|
  {
    var smoothed := SmoothIterate(m, FlatOnly(d, flat), 2, 0.5);
    seq(|d|, i requires 0 <= i < |d| => if flat[i] then smoothed[i] else d[i])
  }

  /**
   * The zeroing loop over the low points, writing into a copy of the
   * deposition: every low point ends at zero and no other node changes.
   */
  method ZeroLowPoints(d: Field, lowPoints: seq<int>) returns (r: Field)
    requires forall k :: 0 <= k < |lowPoints| ==> 0 <= lowPoints[k] < |d|
    ensures r == ZeroAt(d, lowPoints)
  {
    var a := new real[|d|](i requires 0 <= i < |d| => d[i]);
    for k := 0 to |lowPoints|
      invariant forall i :: 0 <= i < |d| ==> a[i] == if i in lowPoints[..k] then 0.0 else d[i]
    {
      assert lowPoints[..k + 1] == lowPoints[..k] + [lowPoints[k]];
      a[lowPoints[k]] := 0.0;
    }
    assert lowPoints[..|lowPoints|] == lowPoints;
    r := a[..];
  }

  /** `smoothed_deposition[np.invert(flat_spots)] = 0.0` on a copy of the deposition. */
  method KeepFlatSpots(d: Field, flat: seq<bool>) returns (r: Field)
    requires |d| == |flat|
    ensures r == FlatOnly(d, flat)
  {
    var kept := new real[|d|](i requires 0 <= i < |d| => d[i]);
    for i := 0 to |d|
      invariant forall j :: 0 <= j < |d| ==> kept[j] == if j < i && !flat[j] then 0.0 else d[j]
    {
      if !flat[i] {
        kept[i] := 0.0;
      }
    }
    r := kept[..];
  }

  /** `deposition[flat_spots] = smoothed_deposition[flat_spots]`. */
  method CopyAtFlatSpots(d: Field, smoothed: Field, flat: seq<bool>) returns (r: Field)
    requires |d| == |flat| == |smoothed|
    ensures |r| == |d|
    ensures forall i :: 0 <= i < |d| ==> r[i] == if flat[i] then smoothed[i] else d[i]
  {
    var out := new real[|d|](i requires 0 <= i < |d| => d[i]);
    for i := 0 to |d|
      invariant forall j :: 0 <= j < |d| ==> out[j] == if j < i && flat[j] then smoothed[j] else d[j]
    {
      if flat[i] {
        out[i] := smoothed[i];
      }
    }
    r := out[..];
  }

  /**
   * The flat-spot block: zero the copy off the flat spots, smooth it twice
   * with centre weight 0.5, and write the smoothed values back at the flat
   * spots only.
   */
  method WriteBackFlatSpots(m: SmoothingMatrix, d: Field, flat: seq<bool>) returns (r: Field)
    requires MatrixWellFormed(m) && |d| == |flat| == |m.diagonal|
    ensures r == FlatFill(m, d, flat)
  {
    var kept := KeepFlatSpots(d, flat);
    var smoothed := LocalAreaSmoothing(m, kept, 2, 0.5);
    r := CopyAtFlatSpots(d, smoothed, flat);
  }

  /** The deposition before the final smoothing: raw, clipped and rescaled, zeroed at low points, filled on flat spots. */
  function Deposition(ops: FlowOperators, m: SmoothingMatrix, excess: Field, slope: Field, lowPoints: seq<int>): (d: Field)
    requires WellShaped(ops) && MatrixWellFormed(m) && |excess| == |slope| == |m.diagonal| > 0
    ensures |d| == |excess|
  {
    var zeroed := ZeroAt(Rescaled(RawDeposition(ops, excess)), lowPoints);
    FlatFill(m, zeroed, IdentifyFlatSpots(m, slope))
  }

  /** The smoothing applied to the final deposition: `smooth_operator`, or streamwise smoothing when none is given. */
  function DepositionSmoother(ops: FlowOperators, p: ErosionParams): Smoother
  {
    if p.smoothOperator.Some? then p.smoothOperator.value else ops.streamwiseSmoothing
  }

  ghost predicate ParamsShaped(ops: FlowOperators, p: ErosionParams)
  {
    p.smoothOperator.Some? ==> SmootherKeepsLength(p.smoothOperator.value)
  }

  /** The excess over capacity for a given stream power and erosion rate. */
  function ExcessOf(ops: FlowOperators, area: Field, streamPower: Field, erosionRate: Field): (excess: Field)
    requires WellShaped(ops) && |area| == |streamPower| == |erosionRate|
    ensures |excess| == |area|
  {
    var eroded := ops.cumulativeFlow(Mul(area, erosionRate));
    Excess(eroded, Mul(streamPower, area))
  }

  /** `smooth_operator(deposition, smooth_deposition_rate, centre_weight) / area`. */
  function DepositionRate(ops: FlowOperators, m: SmoothingMatrix, area: Field, slope: Field, lowPoints: seq<int>,
                          streamPower: Field, erosionRate: Field, p: ErosionParams): Field
    requires WellShaped(ops) && ParamsShaped(ops, p) && MatrixWellFormed(m)
    requires |area| == |slope| == |streamPower| == |erosionRate| == |m.diagonal| > 0 && PositiveAreas(area)
  {
    var deposition := Deposition(ops, m, ExcessOf(ops, area, streamPower, erosionRate), slope, lowPoints);
    var smooth := DepositionSmoother(ops, p);
    Div(smooth(deposition, p.smoothDepositionRate, p.centreWeight), area)
  }

  /**
   * `stream_power_erosion_deposition_rate`: the erosion rate, the deposition
   * rate and the stream power, each the value its stage defines, with
   * `smooth_operator` defaulting to streamwise smoothing.
   */
  method StreamPowerErosionDepositionRate(ops: FlowOperators, m: SmoothingMatrix, area: Field, rain: Field,
                                          slope: Field, lowPoints: seq<int>, p: ErosionParams := DefaultParams)
    returns (erosionRate: Field, depositionRate: Field, streamPower: Field)
    requires WellShaped(ops) && ParamsShaped(ops, p) && MatrixWellFormed(m)
    requires |area| == |rain| == |slope| == |m.diagonal| > 0 && PositiveAreas(area)
    requires forall k :: 0 <= k < |lowPoints| ==> 0 <= lowPoints[k] < |area|
    ensures streamPower == StreamPower(ops, area, rain, slope, p)
    ensures erosionRate == ErosionRate(ops, streamPower, p)
    ensures depositionRate == DepositionRate(ops, m, area, slope, lowPoints, streamPower, erosionRate, p)
  {
    var smooth := DepositionSmoother(ops, p);
    streamPower := StreamPower(ops, area, rain, slope, p);
    erosionRate := ErosionRate(ops, streamPower, p);
    var excess := ExcessOf(ops, area, streamPower, erosionRate);
    var deposition := Rescaled(RawDeposition(ops, excess));
    ghost var zeroed := ZeroAt(deposition, lowPoints);
    if |lowPoints| > 0 {
      deposition := ZeroLowPoints(deposition, lowPoints);
    } else {
      assert deposition == zeroed;
    }
    var flat := IdentifyFlatSpots(m, slope);
    // `len(flat_spots)` is the node count, positive here, so the block always runs.
    deposition := WriteBackFlatSpots(m, deposition, flat);
    assert deposition == Deposition(ops, m, excess, slope, lowPoints);
    depositionRate := Div(smooth(deposition, p.smoothDepositionRate, p.centreWeight), area);
  }

  /** Outside the flat spots the deposition is the zeroed deposition, so every non-flat low point receives none. */
  lemma LowPointsReceiveNoDeposition(ops: FlowOperators, m: SmoothingMatrix, excess: Field, slope: Field,
                                     lowPoints: seq<int>, i: int)
    requires WellShaped(ops) && MatrixWellFormed(m) && |excess| == |slope| == |m.diagonal| > 0
    requires 0 <= i < |excess| && i in lowPoints && !IdentifyFlatSpots(m, slope)[i]
    ensures Deposition(ops, m, excess, slope, lowPoints)[i] == 0.0
  {
  }

  /**
   * With a non-negative rescale factor and an operator with non-negative
   * entries, the deposition is non-negative everywhere: clipping makes it so,
   * zeroing keeps it so, and the flat-spot smoothing preserves it.
   */
  lemma DepositionNonNegative(ops: FlowOperators, m: SmoothingMatrix, excess: Field, slope: Field, lowPoints: seq<int>)
    requires WellShaped(ops) && MatrixWellFormed(m) && |excess| == |slope| == |m.diagonal| > 0
    requires NonNegativeEntries(m)
    requires RescaleFactor(Sum(RawDeposition(ops, excess))) >= 0.0
    ensures NonNegative(Deposition(ops, m, excess, slope, lowPoints))
  {
    var rescaled := Rescaled(RawDeposition(ops, excess));
    var f := RescaleFactor(Sum(RawDeposition(ops, excess)));
    var clipped := Clip(RawDeposition(ops, excess), 0.0, 1.0e99);
    forall i | 0 <= i < |rescaled| ensures rescaled[i] >= 0.0 {
      assert rescaled[i] == f * clipped[i];
    }
    var zeroed := ZeroAt(rescaled, lowPoints);
    var flat := IdentifyFlatSpots(m, slope);
    var kept := FlatOnly(zeroed, flat);
    assert NonNegative(kept);
    SmoothingPreservesNonNegativity(m, kept, 2, 0.5);
  }
}
