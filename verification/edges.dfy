/**
 * The undirected edge set of a triangulation and its edge lengths
 * (`TriMesh.get_edge_lengths`).
 *
 * Each simplex yields its three sides as sorted index pairs; the pairs of all
 * simplices are stacked and deduplicated. NumPy's `unique` over a raw-byte view
 * orders the rows by their machine representation; the model keeps the first
 * occurrence of each row instead, and nothing below depends on the order.
 */
module Edges {
  import opened Geometry

  /** An undirected edge in canonical form, `lo <= hi`. */
  datatype Edge = Edge(lo: int, hi: int)

  /** The Euclidean norm of a plane vector (its square root is not modelled). */
  type Norm = (real, real) -> real

  /** `np.sort` of an index pair along the stacking axis. */
  function Canon(a: int, b: int): (e: Edge)
    ensures e.lo <= e.hi
    ensures (e.lo == a && e.hi == b) || (e.lo == b && e.hi == a)
  {
    if a <= b then Edge(a, b) else Edge(b, a)
  }

  /** `e` is one of the three sides of `s`. */
  predicate SideOf(e: Edge, s: Simplex)
  {
    e == Canon(s.v0, s.v1) || e == Canon(s.v0, s.v2) || e == Canon(s.v1, s.v2)
  }

  /** The stacked rows `np.hstack([i1, i2, i3]).T`: first sides, then second, then third. */
  function Sides(simplices: seq<Simplex>): seq<Edge>
  {
    seq(|simplices|, t requires 0 <= t < |simplices| => Canon(simplices[t].v0, simplices[t].v1))
    + seq(|simplices|, t requires 0 <= t < |simplices| => Canon(simplices[t].v0, simplices[t].v2))
    + seq(|simplices|, t requires 0 <= t < |simplices| => Canon(simplices[t].v1, simplices[t].v2))
  }

  predicate Distinct(s: seq<Edge>)
  {
    forall j, k :: 0 <= j < k < |s| ==> s[j] != s[k]
  }

  /** Row deduplication: each row once, in order of first occurrence. */
  function Unique(s: seq<Edge>): (r: seq<Edge>)
    ensures forall x :: x in r <==> x in s
    ensures Distinct(r)
  {
    if |s| == 0 then []
    else
      var r' := Unique(s[..|s| - 1]);
      assert s == s[..|s| - 1] + [s[|s| - 1]];
      if s[|s| - 1] in r' then r' else r' + [s[|s| - 1]]
  }

  lemma SidesOfSimplices(simplices: seq<Simplex>)
    ensures forall e :: e in Sides(simplices) <==> exists t :: 0 <= t < |simplices| && SideOf(e, simplices[t])
  {
    var n := |simplices|;
    var all := Sides(simplices);
    forall e | e in all ensures exists t :: 0 <= t < n && SideOf(e, simplices[t]) {
      var k :| 0 <= k < |all| && all[k] == e;
      var t := if k < n then k else if k < 2 * n then k - n else k - 2 * n;
      assert SideOf(e, simplices[t]);
    }
    forall e, t | 0 <= t < n && SideOf(e, simplices[t]) ensures e in all {
      var s := simplices[t];
      if e == Canon(s.v0, s.v1) {
        assert all[t] == e;
      } else if e == Canon(s.v0, s.v2) {
        assert all[n + t] == e;
      } else {
        assert all[2 * n + t] == e;
      }
    }
  }

  /**
   * `edges`: the deduplicated side rows. An edge is in the set exactly when it
   * is a side of some simplex, and no edge appears twice.
   */
  function EdgeSet(simplices: seq<Simplex>): (edges: seq<Edge>)
    ensures forall e :: e in edges <==> exists t :: 0 <= t < |simplices| && SideOf(e, simplices[t])
    ensures Distinct(edges)
  {
    SidesOfSimplices(simplices);
    Unique(Sides(simplices))
  }

  /** Every edge joins two nodes of the mesh in canonical order, and two distinct nodes when no simplex repeats a vertex. */
  lemma EdgeSetBounds(simplices: seq<Simplex>, npoints: int)
    requires ValidSimplices(simplices, npoints)
    ensures forall k :: 0 <= k < |EdgeSet(simplices)| ==> 0 <= EdgeSet(simplices)[k].lo <= EdgeSet(simplices)[k].hi < npoints
    ensures (forall t :: 0 <= t < |simplices| ==> Nondegenerate(simplices[t]))
            ==> forall k :: 0 <= k < |EdgeSet(simplices)| ==> EdgeSet(simplices)[k].lo < EdgeSet(simplices)[k].hi
  {
    var edges := EdgeSet(simplices);
    forall k | 0 <= k < |edges|
      ensures 0 <= edges[k].lo <= edges[k].hi < npoints
      ensures (forall t :: 0 <= t < |simplices| ==> Nondegenerate(simplices[t])) ==> edges[k].lo < edges[k].hi
    {
      assert edges[k] in edges;
      var t :| 0 <= t < |simplices| && SideOf(edges[k], simplices[t]);
      assert ValidSimplex(simplices[t], npoints);
    }
  }

  /** The length of edge `e`: `norm(points[lo] - points[hi])`. */
  function Length(points: seq<Point>, norm: Norm, e: Edge): real
    requires 0 <= e.lo < |points| && 0 <= e.hi < |points|
  {
    var d := Diff(points[e.lo], points[e.hi]);
    norm(d.x, d.y)
  }

  predicate EdgesWithin(edges: seq<Edge>, npoints: int)
  {
    forall k :: 0 <= k < |edges| ==> 0 <= edges[k].lo < npoints && 0 <= edges[k].hi < npoints
  }

  /** `edge_lengths`, aligned with `edges`. */
  function EdgeLengths(points: seq<Point>, norm: Norm, edges: seq<Edge>): (lengths: seq<real>)
    requires EdgesWithin(edges, |points|)
    ensures |lengths| == |edges|
    ensures forall k :: 0 <= k < |edges| ==> lengths[k] == Length(points, norm, edges[k])
  {
    seq(|edges|, k requires 0 <= k < |edges| => Length(points, norm, edges[k]))
  }
}
