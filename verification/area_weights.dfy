/**
 * Node valence and node area of a triangulation (`TriMesh.calculate_area_weights`).
 *
 * For every simplex `[a, b, c]` the source forms the encircling vectors
 * `v1 = p[b] - p[a]`, `v2 = p[c] - p[b]`, `v3 = p[a] - p[c]`, keeps the signed
 * area `0.5 * (v1 x v2)`, and adds one to the valence and `|v1 x v3|` to the
 * area accumulator of each vertex; the node area is the accumulator over six.
 */
module AreaWeights {
  import opened Numeric
  import opened Geometry

  function V1(points: seq<Point>, s: Simplex): Point
    requires ValidSimplex(s, |points|)
  {
    Diff(points[s.v1], points[s.v0])
  }

  function V2(points: seq<Point>, s: Simplex): Point
    requires ValidSimplex(s, |points|)
  {
    Diff(points[s.v2], points[s.v1])
  }

  function V3(points: seq<Point>, s: Simplex): Point
    requires ValidSimplex(s, |points|)
  {
    Diff(points[s.v0], points[s.v2])
  }

  /** `triangle_area[t]`: the signed area `0.5 * (v1 x v2)`. */
  function TriangleArea(points: seq<Point>, s: Simplex): real
    requires ValidSimplex(s, |points|)
  {
    0.5 * Cross(V1(points, s), V2(points, s))
  }

  /** What each vertex of `s` adds to its area accumulator: `|v1 x v3|`. */
  function Contribution(points: seq<Point>, s: Simplex): real
    requires ValidSimplex(s, |points|)
  {
    Abs(Cross(V1(points, s), V3(points, s)))
  }

  /** `|v1 x v3|` is twice the unsigned triangle area, since `v3 = -(v1 + v2)`. */
  lemma ContributionIsTwiceArea(points: seq<Point>, s: Simplex)
    requires ValidSimplex(s, |points|)
    ensures Contribution(points, s) == 2.0 * Abs(TriangleArea(points, s))
  {
    var v1, v2, v3 := V1(points, s), V2(points, s), V3(points, s);
    assert v3 == Point(-(v1.x + v2.x), -(v1.y + v2.y));
    assert Cross(v1, v3) == -Cross(v1, v2);
  }

  /** A simplex that repeats a node has zero area and contributes nothing. */
  lemma DegenerateContributesNothing(points: seq<Point>, s: Simplex)
    requires ValidSimplex(s, |points|)
    requires !Nondegenerate(s)
    ensures Contribution(points, s) == 0.0
  {
    var v1, v3 := V1(points, s), V3(points, s);
    if s.v1 == s.v2 {
      assert v3 == Point(-v1.x, -v1.y);
      assert Cross(v1, v3) == -(v1.x * v1.y) + v1.y * v1.x;
    }
  }

  /** Reference count: the number of simplices that have node `i` as a vertex. */
  function Valence(simplices: seq<Simplex>, i: int): nat
  {
    if |simplices| == 0 then 0
    else Valence(simplices[..|simplices| - 1], i) + (if Incident(simplices[|simplices| - 1], i) then 1 else 0)
  }

  /** A node of positive valence is a vertex of some simplex. */
  lemma {:induction false} PositiveValenceIncident(simplices: seq<Simplex>, i: int)
    requires Valence(simplices, i) > 0
    ensures exists t :: 0 <= t < |simplices| && Incident(simplices[t], i)
  {
    var last := |simplices| - 1;
    if !Incident(simplices[last], i) {
      PositiveValenceIncident(simplices[..last], i);
      var t :| 0 <= t < last && Incident(simplices[..last][t], i);
      assert simplices[t] == simplices[..last][t];
    }
  }

  /** Reference sum: `|v1 x v3|` over the simplices that have node `i` as a vertex. */
  function IncidentContribution(points: seq<Point>, simplices: seq<Simplex>, i: int): real
    requires ValidSimplices(simplices, |points|)
  {
    if |simplices| == 0 then 0.0
    else
      var last := simplices[|simplices| - 1];
      IncidentContribution(points, simplices[..|simplices| - 1], i)
        + (if Incident(last, i) then Contribution(points, last) else 0.0)
  }

  /** The node areas: one sixth of the accumulated contributions. */
  function NodeAreas(points: seq<Point>, simplices: seq<Simplex>): (area: seq<real>)
    requires ValidSimplices(simplices, |points|)
    ensures |area| == |points|
  {
    seq(|points|, i requires 0 <= i < |points| => IncidentContribution(points, simplices, i) / 6.0)
  }

  /** The total triangulated area: the sum over simplices of the unsigned area. */
  function TotalArea(points: seq<Point>, simplices: seq<Simplex>): real
    requires ValidSimplices(simplices, |points|)
  {
    if |simplices| == 0 then 0.0
    else TotalArea(points, simplices[..|simplices| - 1]) + Abs(TriangleArea(points, simplices[|simplices| - 1]))
  }

  lemma {:induction false} IncidentContributionNonNegative(points: seq<Point>, simplices: seq<Simplex>, i: int)
    requires ValidSimplices(simplices, |points|)
    ensures IncidentContribution(points, simplices, i) >= 0.0
  {
    if |simplices| > 0 {
      IncidentContributionNonNegative(points, simplices[..|simplices| - 1], i);
    }
  }

  /** Every node area is non-negative. */
  lemma NodeAreasNonNegative(points: seq<Point>, simplices: seq<Simplex>)
    requires ValidSimplices(simplices, |points|)
    ensures forall i :: 0 <= i < |points| ==> NodeAreas(points, simplices)[i] >= 0.0
  {
    forall i | 0 <= i < |points| ensures NodeAreas(points, simplices)[i] >= 0.0 {
      IncidentContributionNonNegative(points, simplices, i);
    }
  }

  /** Number of nodes in `[0, n)` that are vertices of `s`. */
  function CountIncident(s: Simplex, n: nat): nat
  {
    if n == 0 then 0 else CountIncident(s, n - 1) + (if Incident(s, n - 1) then 1 else 0)
  }

  lemma {:induction false} CountIncidentDistinct(s: Simplex, n: nat)
    requires Nondegenerate(s) && s.v0 >= 0 && s.v1 >= 0 && s.v2 >= 0
    ensures CountIncident(s, n) == (if s.v0 < n then 1 else 0) + (if s.v1 < n then 1 else 0) + (if s.v2 < n then 1 else 0)
  {
    if n > 0 {
      CountIncidentDistinct(s, n - 1);
    }
  }

  /** The field that is `c` at the vertices of `s` and zero elsewhere. */
  function Indicator(s: Simplex, n: nat, c: real): (r: seq<real>)
    ensures |r| == n
  {
    seq(n, i requires 0 <= i < n => if Incident(s, i) then c else 0.0)
  }

  lemma {:induction false} SumIndicator(s: Simplex, n: nat, c: real)
    ensures Sum(Indicator(s, n, c)) == c * (CountIncident(s, n) as real)
  {
    if n > 0 {
      assert Indicator(s, n, c)[..n - 1] == Indicator(s, n - 1, c);
      SumIndicator(s, n - 1, c);
    }
  }

  /**
   * Area conservation: the node areas add up to the total triangulated area,
   * since each simplex gives a third of its area to each of its three vertices
   * (and a simplex that repeats a vertex has no area to give).
   */
  lemma {:induction false} NodeAreasSumToTotalArea(points: seq<Point>, simplices: seq<Simplex>)
    requires ValidSimplices(simplices, |points|)
    ensures Sum(NodeAreas(points, simplices)) == TotalArea(points, simplices)
  {
    var n := |points|;
    if |simplices| == 0 {
      assert NodeAreas(points, simplices) == seq(n, i => 0.0);
      SumIndicator(Simplex(-1, -1, -1), n, 0.0);
      assert Indicator(Simplex(-1, -1, -1), n, 0.0) == seq(n, i => 0.0);
    } else {
      var front := simplices[..|simplices| - 1];
      var s := simplices[|simplices| - 1];
      NodeAreasSumToTotalArea(points, front);
      NodeAreasStep(points, simplices);
      ShareOfSimplex(points, s, n);
    }
  }

  /** Adding the last simplex adds its indicator share to the node areas. */
  lemma NodeAreasStep(points: seq<Point>, simplices: seq<Simplex>)
    requires ValidSimplices(simplices, |points|) && |simplices| > 0
    ensures var s := simplices[|simplices| - 1];
      Sum(NodeAreas(points, simplices))
      == Sum(NodeAreas(points, simplices[..|simplices| - 1]))
         + Sum(Indicator(s, |points|, Contribution(points, s) / 6.0))
  {
    var n := |points|;
    var front := simplices[..|simplices| - 1];
    var s := simplices[|simplices| - 1];
    var ind := Indicator(s, n, Contribution(points, s) / 6.0);
    forall i | 0 <= i < n
      ensures NodeAreas(points, simplices)[i] == NodeAreas(points, front)[i] + ind[i]
    {
    }
    SumPointwise(NodeAreas(points, front), ind, NodeAreas(points, simplices));
  }

  /** Spreading a sixth of `|v1 x v3|` over the vertices of a simplex hands out exactly its unsigned area. */
  lemma ShareOfSimplex(points: seq<Point>, s: Simplex, n: nat)
    requires ValidSimplex(s, |points|) && n == |points|
    ensures Sum(Indicator(s, n, Contribution(points, s) / 6.0)) == Abs(TriangleArea(points, s))
  {
    var c := Contribution(points, s) / 6.0;
    SumIndicator(s, n, c);
    ContributionIsTwiceArea(points, s);
    if Nondegenerate(s) {
      CountIncidentDistinct(s, n);
      assert CountIncident(s, n) == 3;
    } else {
      DegenerateContributesNothing(points, s);
    }
  }

  /** Extending the processed prefix by one simplex adds its share to each of its vertices. */
  lemma PrefixStep(points: seq<Point>, simplices: seq<Simplex>, t: nat)
    requires ValidSimplices(simplices, |points|) && t < |simplices|
    ensures forall i ::
              Valence(simplices[..t + 1], i)
              == Valence(simplices[..t], i) + (if Incident(simplices[t], i) then 1 else 0)
    ensures forall i ::
              IncidentContribution(points, simplices[..t + 1], i)
              == IncidentContribution(points, simplices[..t], i)
                 + (if Incident(simplices[t], i) then Contribution(points, simplices[t]) else 0.0)
  {
    assert simplices[..t + 1][..t] == simplices[..t];
  }

  /**
   * NumPy's buffered `w[triangle] += 1`: all three entries are read, then all
   * three written, so a node listed twice in one simplex gains once.
   */
  method ScatterCount(w: array<int>, s: Simplex)
    requires ValidSimplex(s, w.Length)
    modifies w
    ensures forall i :: 0 <= i < w.Length ==> w[i] == old(w[i]) + (if Incident(s, i) then 1 else 0)
  {
    var w0, w1, w2 := w[s.v0] + 1, w[s.v1] + 1, w[s.v2] + 1;
    w[s.v0], w[s.v1], w[s.v2] := w0, w1, w2;
  }

  /** The buffered `ntriw[triangle] += c`, by the same read-then-write rule. */
  method ScatterAdd(a: array<real>, s: Simplex, c: real)
    requires ValidSimplex(s, a.Length)
    modifies a
    ensures forall i :: 0 <= i < a.Length ==> a[i] == old(a[i]) + (if Incident(s, i) then c else 0.0)
  {
    var a0, a1, a2 := a[s.v0] + c, a[s.v1] + c, a[s.v2] + c;
    a[s.v0], a[s.v1], a[s.v2] := a0, a1, a2;
  }

  /**
   * `calculate_area_weights`: one pass over the simplices, adding to the
   * valence and area accumulators of each vertex.
   */
  method CalculateAreaWeights(points: seq<Point>, simplices: seq<Simplex>)
    returns (triangleArea: seq<real>, weight: seq<int>, area: seq<real>)
    requires ValidSimplices(simplices, |points|)
    ensures |triangleArea| == |simplices|
    ensures forall t :: 0 <= t < |simplices| ==> triangleArea[t] == TriangleArea(points, simplices[t])
    ensures |weight| == |points|
    ensures forall i :: 0 <= i < |points| ==> weight[i] == Valence(simplices, i)
    ensures area == NodeAreas(points, simplices)
    ensures forall i :: 0 <= i < |points| ==> area[i] >= 0.0
  {
    triangleArea := seq(|simplices|, t requires 0 <= t < |simplices| => TriangleArea(points, simplices[t]));
    var n := |points|;
    var w := new int[n](_ => 0);
    var ntriw := new real[n](_ => 0.0);
    for t := 0 to |simplices|
      invariant forall i :: 0 <= i < n ==> w[i] == Valence(simplices[..t], i)
      invariant forall i :: 0 <= i < n ==> ntriw[i] == IncidentContribution(points, simplices[..t], i)
    {
      var s := simplices[t];
      ScatterCount(w, s);
      ScatterAdd(ntriw, s, Contribution(points, s));
      PrefixStep(points, simplices, t);
    }
    assert simplices[..|simplices|] == simplices;
    weight := w[..];
    var acc := ntriw[..];
    area := seq(n, i requires 0 <= i < n => acc[i] / 6.0);
    NodeAreasNonNegative(points, simplices);
  }
}
