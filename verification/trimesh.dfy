/**
 * `TriMesh`: a triangulated point set with the derived quantities its
 * constructor computes, in the constructor's order: area weights, edges and
 * their lengths, the neighbour graph and lists, the boundary mask, and the
 * smoothing operator.
 *
 * The triangulation (points, simplices, convex hull) is an input, as are the
 * boundary label of the mesh description and its vertex range.
 */
module Mesh {
  import opened Wrappers
  import opened Numeric
  import opened Geometry
  import opened AreaWeights
  import opened Edges
  import opened Neighbours
  import opened Boundary
  import opened Smoothing

  /** The mesh: built once and read afterwards. */
  datatype TriMesh = TriMesh(
    points: seq<Point>,
    simplices: seq<Simplex>,
    triangleArea: Field,
    weight: seq<int>,
    area: Field,
    edges: seq<Edge>,
    edgeLengths: Field,
    graph: Csr,
    neighbourList: seq<seq<int>>,
    neighbourArray: seq<seq<int>>,
    bmask: seq<bool>,
    smoothing: SmoothingMatrix)

  /** The shape every built mesh has: one entry per node in each per-node array, positive valences, a square operator. */
  predicate Valid(mesh: TriMesh)
  {
    var n := |mesh.points|;
    && |mesh.weight| == n && |mesh.area| == n && |mesh.bmask| == n
    && |mesh.neighbourList| == n && |mesh.neighbourArray| == n
    && (forall i :: 0 <= i < n ==> mesh.weight[i] > 0 && mesh.area[i] >= 0.0)
    && MatrixWellFormed(mesh.smoothing) && |mesh.smoothing.diagonal| == n
  }

  /** The graph has at most one row per node and its columns name nodes. */
  predicate GraphWithin(graph: Csr, npoints: int)
  {
    && WellFormed(graph) && |graph.indptr| - 1 <= npoints
    && forall k :: 0 <= k < |graph.col| ==> 0 <= graph.col[k] < npoints
  }

  /** Every node is a vertex of some simplex, as in any Delaunay triangulation of distinct points. */
  predicate Covered(points: seq<Point>, simplices: seq<Simplex>)
  {
    forall i :: 0 <= i < |points| ==> Valence(simplices, i) > 0
  }

  /** A node of some simplex is an endpoint of one of that simplex's sides, so every covered node is on an edge. */
  lemma CoveredNodesOnEdges(points: seq<Point>, simplices: seq<Simplex>)
    requires Covered(points, simplices)
    ensures forall i :: 0 <= i < |points| ==> OnEdge(EdgeSet(simplices), i)
  {
    var edges := EdgeSet(simplices);
    forall i | 0 <= i < |points| ensures OnEdge(edges, i) {
      PositiveValenceIncident(simplices, i);
      var t :| 0 <= t < |simplices| && Incident(simplices[t], i);
      var s := simplices[t];
      var e := if s.v0 == i || s.v1 == i then Canon(s.v0, s.v1) else Canon(s.v0, s.v2);
      assert SideOf(e, s);
      assert e in edges;
      var k :| 0 <= k < |edges| && edges[k] == e;
    }
  }

  /**
   * `TriMesh.__init__` after the triangulation: each stored array is the
   * quantity its step defines, the neighbour rows are the edges' endpoints,
   * and the mask marks exactly the boundary points.
   */
  method NewTriMesh(points: seq<Point>, simplices: seq<Simplex>, hull: seq<int>, norm: Norm,
                    boundaryLabel: Option<seq<int>>, pStart: int, pEnd: int)
    returns (mesh: TriMesh)
    requires ValidSimplices(simplices, |points|) && Covered(points, simplices)
    requires pEnd - pStart == |points|
    ensures Valid(mesh)
    ensures mesh.points == points && mesh.simplices == simplices
    ensures |mesh.triangleArea| == |simplices|
    ensures forall t :: 0 <= t < |simplices| ==> mesh.triangleArea[t] == TriangleArea(points, simplices[t])
    ensures forall i :: 0 <= i < |points| ==> mesh.weight[i] == Valence(simplices, i)
    ensures mesh.area == NodeAreas(points, simplices)
    ensures mesh.edges == EdgeSet(simplices)
    ensures EdgesWithin(mesh.edges, |points|) && Canonical(mesh.edges)
    ensures mesh.edgeLengths == EdgeLengths(points, norm, mesh.edges)
    ensures mesh.graph == ConstructCsr(mesh.edges, mesh.edgeLengths)
    ensures GraphWithin(mesh.graph, |points|) && |mesh.graph.indptr| == |points| + 1
    ensures forall i :: 0 <= i < |points| ==>
              mesh.neighbourList[i] == NodeNeighbours(mesh.graph, i)
              && mesh.neighbourArray[i] == [i] + mesh.neighbourList[i]
    ensures forall i :: 0 <= i < |points| ==>
              (!mesh.bmask[i] <==> OnBoundary(BoundaryStratum(boundaryLabel, hull, pStart), pStart, pEnd, i))
    ensures mesh.smoothing == BuildSmoothingMatrix(mesh.graph, mesh.weight)
  {
    var n := |points|;
    var triangleArea, weight, area := CalculateAreaWeights(points, simplices);

    var edges := EdgeSet(simplices);
    EdgeSetBounds(simplices, n);
    var edgeLengths := EdgeLengths(points, norm, edges);

    var graph := ConstructCsr(edges, edgeLengths);
    CsrWithin(edges, edgeLengths, n);
    CoveredNodesOnEdges(points, simplices);
    RowPerNode(edges, edgeLengths, n);
    var neighbourList, neighbourArray := NeighbourLists(graph, n);

    var bmask := GetBoundary(n, boundaryLabel, hull, pStart, pEnd);

    var smoothing := BuildSmoothingMatrix(graph, weight);

    mesh := TriMesh(points, simplices, triangleArea, weight, area, edges, edgeLengths,
                    graph, neighbourList, neighbourArray, bmask, smoothing);
  }

  /** The operator of a built mesh has positive entries, so smoothing a non-negative field leaves it non-negative. */
  lemma MeshSmoothingNonNegative(mesh: TriMesh, data: Field, its: nat, centreWeight: real)
    requires Valid(mesh) && |data| == |mesh.points|
    requires GraphWithin(mesh.graph, |mesh.weight|)
    requires mesh.smoothing == BuildSmoothingMatrix(mesh.graph, mesh.weight)
    requires NonNegative(data) && 0.0 <= centreWeight <= 1.0
    ensures NonNegative(SmoothIterate(mesh.smoothing, data, its, centreWeight))
  {
    SmoothingPreservesNonNegativity(mesh.smoothing, data, its, centreWeight);
  }
}
