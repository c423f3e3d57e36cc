/**
 * `SurfMesh`: the surface-process state kept on a mesh. The mesh, the
 * steepest-descent and neighbourhood tables and the flow operators are fixed;
 * the rainfall pattern, sediment distribution, upstream area, low points and
 * outflow points are updated in place.
 */
module Surface {
  import opened Wrappers
  import opened Numeric
  import opened Mesh
  import opened Flow
  import opened Classification
  import opened LowPoints
  import opened Erosion

  /** `IndexError("Incompatible array size, should be {npoints}")`. */
  datatype SurfaceError = IndexError(expected: nat)

  class SurfaceProcessMesh {
    const mesh: TriMesh
    /** First column of `neighbour_array_2_low`. */
    const toLow: seq<int>
    /** `neighbour_array_lo_hi`. */
    const loHi: seq<seq<int>>
    const ops: FlowOperators

    var height: Field
    var slope: Field
    var rainfallPattern: Field
    var sedimentDistribution: Field
    var upstreamArea: Field
    var lowPoints: seq<int>
    var outflowPoints: seq<int>

    function NPoints(): nat
    {
      |mesh.points|
    }

    ghost predicate Valid()
      reads this
    {
      && Mesh.Valid(mesh)
      && |toLow| == NPoints() && |height| == NPoints() && |slope| == NPoints()
      && Tables(height, lowPoints, loHi)
      && WellShaped(ops)
    }

    constructor (mesh: TriMesh, toLow: seq<int>, loHi: seq<seq<int>>, ops: FlowOperators, height: Field, slope: Field)
      requires Mesh.Valid(mesh) && |toLow| == |height| == |slope| == |mesh.points|
      requires Tables(height, [], loHi) && WellShaped(ops)
      ensures Valid()
      ensures this.mesh == mesh && this.toLow == toLow && this.loHi == loHi && this.ops == ops
      ensures this.height == height && this.slope == slope
      ensures rainfallPattern == [] && sedimentDistribution == [] && upstreamArea == []
      ensures lowPoints == [] && outflowPoints == []
    {
      this.mesh := mesh;
      this.toLow := toLow;
      this.loHi := loHi;
      this.ops := ops;
      this.height := height;
      this.slope := slope;
      rainfallPattern, sedimentDistribution, upstreamArea := [], [], [];
      lowPoints, outflowPoints := [], [];
    }

    /**
     * `update_surface_processes`: reject arrays of the wrong size with an
     * `IndexError` and change nothing; otherwise store copies of both
     * arrays, the cumulative flow of the node areas, and the low and outflow
     * points.
     */
    method UpdateSurfaceProcesses(rain: Field, sediment: Field) returns (outcome: Outcome<SurfaceError>)
      requires Valid()
      modifies this
      ensures Valid()
      ensures |rain| != NPoints() || |sediment| != NPoints() ==>
                outcome == Fail(IndexError(NPoints())) && unchanged(this)
      ensures |rain| == NPoints() && |sediment| == NPoints() ==>
                && outcome == Pass
                && rainfallPattern == rain && sedimentDistribution == sediment
                && upstreamArea == ops.cumulativeFlow(mesh.area)
                && lowPoints == IdentifyLowPoints(toLow, mesh.bmask)
                && outflowPoints == IdentifyOutflowPoints(toLow, mesh.bmask)
                && height == old(height) && slope == old(slope)
    {
      if |rain| != NPoints() || |sediment| != NPoints() {
        return Fail(IndexError(NPoints()));
      }
      rainfallPattern := rain;
      sedimentDistribution := sediment;
      upstreamArea := ops.cumulativeFlow(mesh.area);
      LowPointsExact(toLow, mesh.bmask);
      lowPoints := IdentifyLowPoints(toLow, mesh.bmask);
      assert forall k :: 0 <= k < |lowPoints| ==> lowPoints[k] in lowPoints;
      outflowPoints := IdentifyOutflowPoints(toLow, mesh.bmask);
      outcome := Pass;
    }

    /**
     * `handle_low_points(base, its)`: recompute the low points, then fill
     * them. The stored heights are not changed; the filled heights are
     * returned, and none is below the stored height.
     */
    method HandleLowPoints(base: real, its: nat) returns (newHeight: Field)
      requires Valid()
      modifies this
      ensures Valid()
      ensures lowPoints == IdentifyLowPoints(toLow, mesh.bmask)
      ensures height == old(height) && slope == old(slope)
      ensures rainfallPattern == old(rainfallPattern) && sedimentDistribution == old(sedimentDistribution)
      ensures upstreamArea == old(upstreamArea) && outflowPoints == old(outflowPoints)
      ensures newHeight == FilledHeight(height, base, lowPoints, loHi, ops.downhillMultTranspose, its)
      ensures |newHeight| == |height| && forall i :: 0 <= i < |height| ==> newHeight[i] >= height[i]
    {
      LowPointsExact(toLow, mesh.bmask);
      lowPoints := IdentifyLowPoints(toLow, mesh.bmask);
      assert forall k :: 0 <= k < |lowPoints| ==> lowPoints[k] in lowPoints;
      var fixed, rejected;
      newHeight, fixed, rejected := FillLowPoints(height, base, lowPoints, loHi, ops.downhillMultTranspose, its);
    }

    /** `stream_power_erosion_deposition_rate` on the stored rainfall, areas, slope and low points. */
    method StreamPowerRates(p: ErosionParams) returns (erosionRate: Field, depositionRate: Field, streamPower: Field)
      requires Valid() && |rainfallPattern| == NPoints() > 0 && PositiveAreas(mesh.area) && ParamsShaped(ops, p)
      ensures streamPower == StreamPower(ops, mesh.area, rainfallPattern, slope, p)
      ensures erosionRate == ErosionRate(ops, streamPower, p)
      ensures depositionRate == DepositionRate(ops, mesh.smoothing, mesh.area, slope, lowPoints, streamPower, erosionRate, p)
    {
      erosionRate, depositionRate, streamPower :=
        StreamPowerErosionDepositionRate(ops, mesh.smoothing, mesh.area, rainfallPattern, slope, lowPoints, p);
    }
  }
}
