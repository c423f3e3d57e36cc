/** Point coordinates and triangles as the Delaunay triangulation hands them to the mesh. */
module Geometry {

  /** One row of `tri.points`. */
  datatype Point = Point(x: real, y: real)

  /** One row of `tri.simplices`: three indices into the point array. */
  datatype Simplex = Simplex(v0: int, v1: int, v2: int)

  predicate ValidSimplex(s: Simplex, npoints: int)
  {
    0 <= s.v0 < npoints && 0 <= s.v1 < npoints && 0 <= s.v2 < npoints
  }

  /** Every simplex index lies in `[0, npoints)`. */
  predicate ValidSimplices(simplices: seq<Simplex>, npoints: int)
  {
    forall t :: 0 <= t < |simplices| ==> ValidSimplex(simplices[t], npoints)
  }

  /** The three vertices are distinct nodes. */
  predicate Nondegenerate(s: Simplex)
  {
    s.v0 != s.v1 && s.v0 != s.v2 && s.v1 != s.v2
  }

  /** Node `i` is a vertex of simplex `s`. */
  predicate Incident(s: Simplex, i: int)
  {
    s.v0 == i || s.v1 == i || s.v2 == i
  }

  function Diff(p: Point, q: Point): Point
  {
    Point(p.x - q.x, p.y - q.y)
  }

  /** z component of the cross product of two plane vectors. */
  function Cross(u: Point, v: Point): real
  {
    u.x * v.y - u.y * v.x
  }
}
