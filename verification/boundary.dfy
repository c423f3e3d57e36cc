/**
 * The boundary mask (`TriMesh.get_boundary`): `true` marks an interior node,
 * `false` a boundary node.
 *
 * The boundary points are the points of the `"boundary"` label's stratum with
 * value 1 that fall in the vertex range `[pStart, pEnd)`, shifted by `pStart`.
 * When the label store has no such label, the convex hull of the points,
 * shifted by `pStart`, is registered under it first; the boundary faces that
 * the store also marks are not vertices and fall outside the range.
 */
module Boundary {
  import opened Wrappers

  /** The points of the `"boundary"` stratum as the mask reads them. */
  function BoundaryStratum(boundaryLabel: Option<seq<int>>, hull: seq<int>, pStart: int): seq<int>
  {
    match boundaryLabel
    case Some(points) => points
    case None => seq(|hull|, k requires 0 <= k < |hull| => hull[k] + pStart)
  }

  /** Node `i` is named by a stratum point in the vertex range. */
  predicate OnBoundary(stratum: seq<int>, pStart: int, pEnd: int, i: int)
  {
    exists k :: 0 <= k < |stratum| && pStart <= stratum[k] < pEnd && stratum[k] - pStart == i
  }

  /**
   * `get_boundary`: start from all `true` and write `false` at every stratum
   * point in `[pStart, pEnd)`, shifted to a node index. A node is a boundary
   * node exactly when the stratum names it.
   */
  method GetBoundary(npoints: nat, boundaryLabel: Option<seq<int>>, hull: seq<int>, pStart: int, pEnd: int)
    returns (bmask: seq<bool>)
    requires pEnd - pStart == npoints
    ensures |bmask| == npoints
    ensures forall i :: 0 <= i < npoints ==>
              (!bmask[i] <==> OnBoundary(BoundaryStratum(boundaryLabel, hull, pStart), pStart, pEnd, i))
  {
    var stratum := BoundaryStratum(boundaryLabel, hull, pStart);
    var mask := new bool[npoints](_ => true);
    var k := 0;
    while k < |stratum|
      invariant 0 <= k <= |stratum|
      invariant forall i :: 0 <= i < npoints ==>
                  (!mask[i] <==> exists m :: 0 <= m < k && pStart <= stratum[m] < pEnd && stratum[m] - pStart == i)
    {
      if pStart <= stratum[k] < pEnd {
        mask[stratum[k] - pStart] := false;
      }
      k := k + 1;
    }
    bmask := mask[..];
  }

  /**
   * The convex-hull fallback: with no `"boundary"` label, every hull point is a
   * boundary node, and no other node is.
   */
  lemma HullIsBoundary(npoints: nat, hull: seq<int>, pStart: int, pEnd: int)
    requires pEnd - pStart == npoints
    ensures forall i :: 0 <= i < npoints ==>
              (OnBoundary(BoundaryStratum(None, hull, pStart), pStart, pEnd, i) <==> i in hull)
  {
    var stratum := BoundaryStratum(None, hull, pStart);
    forall i | 0 <= i < npoints
      ensures OnBoundary(stratum, pStart, pEnd, i) <==> i in hull
    {
      if i in hull {
        var k :| 0 <= k < |hull| && hull[k] == i;
        assert pStart <= stratum[k] < pEnd && stratum[k] - pStart == i;
      }
    }
  }
}
