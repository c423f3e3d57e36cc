/**
 * Classification of nodes from the steepest-descent table and the boundary
 * mask (`SurfMesh.identify_low_points`, `identify_outflow_points`,
 * `identify_high_points`, `identify_flat_spots`).
 *
 * `toLow[i]` is the first column of `neighbour_array_2_low`: the node that
 * node `i` drains to, `i` itself when no neighbour is lower. `loHi[i]` is row
 * `i` of `neighbour_array_lo_hi`: the closed neighbourhood of `i` ordered from
 * lowest to highest. Both tables are inputs. `bmask[i]` is `true` for an
 * interior node.
 */
module Classification {
  import opened Numeric
  import opened Smoothing

  /** `xs[mask]`: the entries whose mask is set, in order. */
  function Compress(xs: seq<int>, mask: seq<bool>): seq<int>
    requires |xs| == |mask|
  {
    if |xs| == 0 then []
    else Compress(xs[..|xs| - 1], mask[..|mask| - 1]) + (if mask[|mask| - 1] then [xs[|xs| - 1]] else [])
  }

  /** The positions whose mask is set, in increasing order: the reference for `Compress`. */
  function Indices(mask: seq<bool>): seq<int>
  {
    if |mask| == 0 then []
    else Indices(mask[..|mask| - 1]) + (if mask[|mask| - 1] then [|mask| - 1] else [])
  }

  predicate StrictlyIncreasing(s: seq<int>)
  {
    forall i, j :: 0 <= i < j < |s| ==> s[i] < s[j]
  }

  /** `Indices` lists exactly the set positions, each once, in increasing order. */
  lemma {:induction false} IndicesExact(mask: seq<bool>)
    ensures StrictlyIncreasing(Indices(mask))
    ensures forall x :: x in Indices(mask) <==> 0 <= x < |mask| && mask[x]
  {
    if |mask| > 0 {
      var front := mask[..|mask| - 1];
      IndicesExact(front);
      assert forall x :: 0 <= x < |front| ==> front[x] == mask[x];
      var r := Indices(front);
      forall k | 0 <= k < |r| ensures r[k] < |front| {
        assert r[k] in r;
      }
    }
  }

  /** When every selected entry holds its own position, compressing yields the selected positions. */
  lemma {:induction false} CompressSelf(xs: seq<int>, mask: seq<bool>)
    requires |xs| == |mask|
    requires forall i :: 0 <= i < |mask| && mask[i] ==> xs[i] == i
    ensures Compress(xs, mask) == Indices(mask)
  {
    if |xs| > 0 {
      CompressSelf(xs[..|xs| - 1], mask[..|mask| - 1]);
    }
  }

  /** `np.logical_and(nodes == low_nodes, bmask == interior)`. */
  function SelfTargetMask(toLow: seq<int>, bmask: seq<bool>, interior: bool): (mask: seq<bool>)
    requires |toLow| == |bmask|
    ensures |mask| == |toLow|
  {
    seq(|toLow|, i requires 0 <= i < |toLow| => toLow[i] == i && bmask[i] == interior)
  }

  /** `identify_low_points`: the self-targeting interior nodes. */
  function IdentifyLowPoints(toLow: seq<int>, bmask: seq<bool>): seq<int>
    requires |toLow| == |bmask|
  {
    Compress(toLow, SelfTargetMask(toLow, bmask, true))
  }

  /** `identify_outflow_points`: the self-targeting boundary nodes. */
  function IdentifyOutflowPoints(toLow: seq<int>, bmask: seq<bool>): seq<int>
    requires |toLow| == |bmask|
  {
    Compress(toLow, SelfTargetMask(toLow, bmask, false))
  }

  lemma SelfTargetsExact(toLow: seq<int>, bmask: seq<bool>, interior: bool)
    requires |toLow| == |bmask|
    ensures var r := Compress(toLow, SelfTargetMask(toLow, bmask, interior));
      && StrictlyIncreasing(r)
      && forall x :: x in r <==> 0 <= x < |toLow| && toLow[x] == x && bmask[x] == interior
  {
    var mask := SelfTargetMask(toLow, bmask, interior);
    CompressSelf(toLow, mask);
    IndicesExact(mask);
  }

  /** The low points are exactly the interior nodes that drain to themselves, in increasing order. */
  lemma LowPointsExact(toLow: seq<int>, bmask: seq<bool>)
    requires |toLow| == |bmask|
    ensures StrictlyIncreasing(IdentifyLowPoints(toLow, bmask))
    ensures forall x :: x in IdentifyLowPoints(toLow, bmask) <==> 0 <= x < |toLow| && toLow[x] == x && bmask[x]
  {
    SelfTargetsExact(toLow, bmask, true);
  }

  /** The outflow points are exactly the boundary nodes that drain to themselves, in increasing order. */
  lemma OutflowPointsExact(toLow: seq<int>, bmask: seq<bool>)
    requires |toLow| == |bmask|
    ensures StrictlyIncreasing(IdentifyOutflowPoints(toLow, bmask))
    ensures forall x :: x in IdentifyOutflowPoints(toLow, bmask) <==> 0 <= x < |toLow| && toLow[x] == x && !bmask[x]
  {
    SelfTargetsExact(toLow, bmask, false);
  }

  /** Low and outflow points never share a node, and together they are all the self-targeting nodes. */
  lemma LowAndOutflowPartitionSinks(toLow: seq<int>, bmask: seq<bool>)
    requires |toLow| == |bmask|
    ensures forall x :: !(x in IdentifyLowPoints(toLow, bmask) && x in IdentifyOutflowPoints(toLow, bmask))
    ensures forall x :: x in IdentifyLowPoints(toLow, bmask) || x in IdentifyOutflowPoints(toLow, bmask)
                        <==> 0 <= x < |toLow| && toLow[x] == x
  {
    LowPointsExact(toLow, bmask);
    OutflowPointsExact(toLow, bmask);
  }

  /**
   * `identify_high_points`: walk the nodes in order and append each interior
   * node that is the highest of its own neighbourhood (the last entry of its
   * `loHi` row).
   */
  method IdentifyHighPoints(loHi: seq<seq<int>>, bmask: seq<bool>) returns (high: seq<int>)
    requires |loHi| == |bmask|
    requires forall i :: 0 <= i < |loHi| ==> |loHi[i]| > 0
    ensures StrictlyIncreasing(high)
    ensures forall x :: x in high <==> 0 <= x < |loHi| && loHi[x][|loHi[x]| - 1] == x && bmask[x]
  {
    high := [];
    for node := 0 to |loHi|
      invariant StrictlyIncreasing(high)
      invariant forall k :: 0 <= k < |high| ==> high[k] < node
      invariant forall x :: x in high <==> 0 <= x < node && loHi[x][|loHi[x]| - 1] == x && bmask[x]
    {
      if loHi[node][|loHi[node]| - 1] == node && bmask[node] {
        high := high + [node];
      }
    }
  }

  /**
   * `identify_flat_spots`: smooth the slope once with centre weight 0.5 and
   * mark every node whose smoothed slope is below a tenth of the largest.
   */
  function IdentifyFlatSpots(m: SmoothingMatrix, slope: Field): (flat: seq<bool>)
    requires MatrixWellFormed(m) && |slope| == |m.diagonal| > 0
    ensures |flat| == |slope|
  {
    var smooth := SmoothIterate(m, slope, 1, 0.5);
    var top := Max(smooth);
    seq(|slope|, i requires 0 <= i < |slope| => smooth[i] < top / 10.0)
  }

  /**
   * On a non-negative slope and an operator with non-negative entries, the
   * node of steepest smoothed slope is never flat.
   */
  lemma FlatSpotsSpareSteepest(m: SmoothingMatrix, slope: Field)
    requires MatrixWellFormed(m) && |slope| == |m.diagonal| > 0
    requires NonNegativeEntries(m) && NonNegative(slope)
    ensures exists i :: 0 <= i < |slope| && !IdentifyFlatSpots(m, slope)[i]
  {
    var smooth := SmoothIterate(m, slope, 1, 0.5);
    SmoothingPreservesNonNegativity(m, slope, 1, 0.5);
    var k :| 0 <= k < |smooth| && smooth[k] == Max(smooth);
    assert smooth[k] >= 0.0;
    assert !IdentifyFlatSpots(m, slope)[k];
  }

  /**
   * The threshold is relative to the steepest smoothed slope and the smoothing
   * is linear, so the flat spots do not depend on the slope's scale: scaling
   * every slope by the same positive factor marks the same nodes.
   */
  lemma FlatSpotsScaleFree(m: SmoothingMatrix, slope: Field, c: real)
    requires MatrixWellFormed(m) && |slope| == |m.diagonal| > 0 && c > 0.0
    ensures IdentifyFlatSpots(m, Scale(c, slope)) == IdentifyFlatSpots(m, slope)
  {
    var smooth := SmoothIterate(m, slope, 1, 0.5);
    var scaled := SmoothIterate(m, Scale(c, slope), 1, 0.5);
    assert SmoothIterate(m, slope, 0, 0.5) == slope;
    assert SmoothIterate(m, Scale(c, slope), 0, 0.5) == Scale(c, slope);
    SmoothStepScale(m, slope, c, 0.5);
    assert scaled == Scale(c, smooth);
    ScaleAt(c, smooth);
    ThresholdScaleFree(smooth, scaled, c);
  }

  /** Whether a value is under a tenth of the largest does not change when every value is scaled by the same positive factor. */
  lemma ThresholdScaleFree(s: seq<real>, t: seq<real>, c: real)
    requires |s| > 0 && c > 0.0 && |t| == |s|
    requires forall k :: 0 <= k < |s| ==> t[k] == c * s[k]
    ensures forall j :: 0 <= j < |s| ==> (t[j] < Max(t) / 10.0) == (s[j] < Max(s) / 10.0)
  {
    var i :| 0 <= i < |s| && s[i] == Max(s);
    ScaledMaxAttained(s, t, c, i);
    ThresholdAgainst(s, t, c, i);
  }

  lemma ThresholdAgainst(s: seq<real>, t: seq<real>, c: real, i: int)
    requires c > 0.0 && |t| == |s| && 0 <= i < |s|
    requires forall k :: 0 <= k < |s| ==> t[k] == c * s[k]
    ensures forall j :: 0 <= j < |s| ==> (t[j] < t[i] / 10.0) == (s[j] < s[i] / 10.0)
  {
    forall j | 0 <= j < |s| ensures (t[j] < t[i] / 10.0) == (s[j] < s[i] / 10.0) {
      ScaledThreshold(c, s[j], s[i], t[j], t[i]);
    }
  }

  /** Comparing against a tenth of a bound does not depend on a common positive factor. */
  lemma ScaledThreshold(c: real, a: real, b: real, ca: real, cb: real)
    requires c > 0.0 && ca == c * a && cb == c * b
    ensures (ca < cb / 10.0) == (a < b / 10.0)
  {
    assert cb / 10.0 - ca == c * (b / 10.0 - a);
  }
}
