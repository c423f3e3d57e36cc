/**
 * The smoothing operator (`TriMesh._build_smoothing_matrix`) and its iterated
 * application with a centre weight (`TriMesh.local_area_smoothing`).
 *
 * Row `i` of the matrix has `1 / weight[i]` on the diagonal and
 * `1 / weight[j]` at every neighbour `j`, where `weight` is the node valence.
 * The diagonal is inserted last, so it replaces any CSR value in that position.
 * The rows do not in general add up to one, so the operator is a weighted
 * local sum rather than an average.
 */
module Smoothing {
  import opened Numeric
  import opened Neighbours
  import opened Edges

  /** The matrix in CSR layout: the neighbour graph's `indptr` and `col`, the off-diagonal values, the diagonal. */
  datatype SmoothingMatrix = SmoothingMatrix(indptr: seq<int>, col: seq<int>, offDiagonal: seq<real>, diagonal: seq<real>)

  /** A square matrix of `|diagonal|` rows; CSR rows past `|indptr| - 1` carry only their diagonal. */
  predicate MatrixWellFormed(m: SmoothingMatrix)
  {
    && |m.indptr| >= 1 && |m.indptr| - 1 <= |m.diagonal| && m.indptr[0] == 0
    && (forall i, j :: 0 <= i <= j < |m.indptr| ==> m.indptr[i] <= m.indptr[j])
    && m.indptr[|m.indptr| - 1] == |m.col| == |m.offDiagonal|
    && (forall k :: 0 <= k < |m.col| ==> 0 <= m.col[k] < |m.diagonal|)
  }

  /**
   * `_build_smoothing_matrix`: the graph's layout with `1 / weight[col[k]]` at
   * each off-diagonal position and `1 / weight[i]` on the diagonal.
   */
  function BuildSmoothingMatrix(csr: Csr, weight: seq<int>): (m: SmoothingMatrix)
    requires WellFormed(csr) && |csr.indptr| - 1 <= |weight|
    requires forall k :: 0 <= k < |csr.col| ==> 0 <= csr.col[k] < |weight|
    requires forall i :: 0 <= i < |weight| ==> weight[i] > 0
    ensures MatrixWellFormed(m)
    ensures m.indptr == csr.indptr && m.col == csr.col && |m.diagonal| == |weight|
    ensures forall i :: 0 <= i < |weight| ==> m.diagonal[i] == 1.0 / (weight[i] as real) > 0.0
    ensures forall k :: 0 <= k < |m.col| ==> m.offDiagonal[k] == 1.0 / (weight[m.col[k]] as real) > 0.0
  {
    SmoothingMatrix(
      csr.indptr, csr.col,
      seq(|csr.col|, k requires 0 <= k < |csr.col| => 1.0 / (weight[csr.col[k]] as real)),
      seq(|weight|, i requires 0 <= i < |weight| => 1.0 / (weight[i] as real)))
  }

  /**
   * The off-diagonal part of row `i` of a product: `offDiagonal[k] * x[col[k]]`
   * summed over `k` in `[lo, hi)`. Both writes into the matrix insert rather
   * than add, and `setDiagonal` comes after `setValuesLocalCSR`, so a CSR
   * entry in the diagonal position (from an edge joining a node to itself) is
   * overwritten by the diagonal and adds nothing here.
   */
  function RowDot(m: SmoothingMatrix, x: Field, i: int, lo: int, hi: int): real
    requires 0 <= lo <= hi <= |m.col| == |m.offDiagonal|
    requires forall k :: lo <= k < hi ==> 0 <= m.col[k] < |x|
    decreases hi - lo
  {
    if hi == lo then 0.0
    else RowDot(m, x, i, lo, hi - 1) + (if m.col[hi - 1] == i then 0.0 else m.offDiagonal[hi - 1] * x[m.col[hi - 1]])
  }

  /** Bounds of CSR row `i`, empty for rows past the end of `indptr`. */
  function RowStart(m: SmoothingMatrix, i: int): int
    requires MatrixWellFormed(m)
  {
    if 0 <= i < |m.indptr| - 1 then m.indptr[i] else 0
  }

  function RowEnd(m: SmoothingMatrix, i: int): int
    requires MatrixWellFormed(m)
  {
    if 0 <= i < |m.indptr| - 1 then m.indptr[i + 1] else 0
  }

  /** `smoothMat.mult(x)`: the matrix-vector product. */
  function Mult(m: SmoothingMatrix, x: Field): (y: Field)
    requires MatrixWellFormed(m) && |x| == |m.diagonal|
    ensures |y| == |x|
  {
    seq(|x|, i requires 0 <= i < |x| => m.diagonal[i] * x[i] + RowDot(m, x, i, RowStart(m, i), RowEnd(m, i)))
  }

  /** One round of `local_area_smoothing`: `centre_weight * x + (1 - centre_weight) * (S x)`. */
  function SmoothStep(m: SmoothingMatrix, x: Field, centreWeight: real): (y: Field)
    requires MatrixWellFormed(m) && |x| == |m.diagonal|
    ensures |y| == |x|
  {
    var sx := Mult(m, x);
    seq(|x|, i requires 0 <= i < |x| => centreWeight * x[i] + (1.0 - centreWeight) * sx[i])
  }

  /** `its` rounds of smoothing. */
  function SmoothIterate(m: SmoothingMatrix, data: Field, its: nat, centreWeight: real): (r: Field)
    requires MatrixWellFormed(m) && |data| == |m.diagonal|
    ensures |r| == |data|
  {
    if its == 0 then data else SmoothStep(m, SmoothIterate(m, data, its - 1, centreWeight), centreWeight)
  }

  /**
   * `local_area_smoothing(data, its, centre_weight)`: `its` rounds of the
   * smoothing step. With no rounds, or with centre weight one, the data come
   * back unchanged.
   */
  method LocalAreaSmoothing(m: SmoothingMatrix, data: Field, its: nat := 1, centreWeight: real := 0.75)
    returns (smoothData: Field)
    requires MatrixWellFormed(m) && |data| == |m.diagonal|
    ensures smoothData == SmoothIterate(m, data, its, centreWeight)
    ensures its == 0 || centreWeight == 1.0 ==> smoothData == data
  {
    smoothData := data;
    for i := 0 to its
      invariant smoothData == SmoothIterate(m, data, i, centreWeight)
    {
      var product := Mult(m, smoothData);
      smoothData := seq(|smoothData|, k requires 0 <= k < |smoothData| =>
                          centreWeight * smoothData[k] + (1.0 - centreWeight) * product[k]);
    }
    if centreWeight == 1.0 {
      CentreWeightOneIsIdentity(m, data, its);
    }
  }

  /** With centre weight one every round returns its input, so any number of rounds is the identity. */
  lemma {:induction false} CentreWeightOneIsIdentity(m: SmoothingMatrix, data: Field, its: nat)
    requires MatrixWellFormed(m) && |data| == |m.diagonal|
    ensures SmoothIterate(m, data, its, 1.0) == data
  {
    if its > 0 {
      CentreWeightOneIsIdentity(m, data, its - 1);
      assert SmoothStep(m, data, 1.0) == data;
    }
  }

  predicate NonNegative(x: Field)
  {
    forall i :: 0 <= i < |x| ==> x[i] >= 0.0
  }

  predicate NonNegativeEntries(m: SmoothingMatrix)
  {
    NonNegative(m.diagonal) && NonNegative(m.offDiagonal)
  }

  lemma {:induction false} RowDotNonNegative(m: SmoothingMatrix, x: Field, i: int, lo: int, hi: int)
    requires 0 <= lo <= hi <= |m.col| == |m.offDiagonal|
    requires forall k :: lo <= k < hi ==> 0 <= m.col[k] < |x|
    requires NonNegative(m.offDiagonal) && NonNegative(x)
    ensures RowDot(m, x, i, lo, hi) >= 0.0
    decreases hi - lo
  {
    if hi > lo {
      RowDotNonNegative(m, x, i, lo, hi - 1);
      assert m.offDiagonal[hi - 1] * x[m.col[hi - 1]] >= 0.0;
    }
  }

  /**
   * Smoothing keeps a non-negative field non-negative when the matrix entries
   * are non-negative and the centre weight lies in `[0, 1]`.
   */
  lemma {:induction false} SmoothingPreservesNonNegativity(m: SmoothingMatrix, data: Field, its: nat, centreWeight: real)
    requires MatrixWellFormed(m) && |data| == |m.diagonal|
    requires NonNegativeEntries(m) && NonNegative(data)
    requires 0.0 <= centreWeight <= 1.0
    ensures NonNegative(SmoothIterate(m, data, its, centreWeight))
  {
    if its > 0 {
      SmoothingPreservesNonNegativity(m, data, its - 1, centreWeight);
      SmoothStepNonNegative(m, SmoothIterate(m, data, its - 1, centreWeight), centreWeight);
    }
  }

  /** One round keeps a non-negative field non-negative. */
  lemma SmoothStepNonNegative(m: SmoothingMatrix, x: Field, centreWeight: real)
    requires MatrixWellFormed(m) && |x| == |m.diagonal|
    requires NonNegativeEntries(m) && NonNegative(x)
    requires 0.0 <= centreWeight <= 1.0
    ensures NonNegative(SmoothStep(m, x, centreWeight))
  {
    var sx := Mult(m, x);
    MultNonNegative(m, x);
    forall i | 0 <= i < |x| ensures SmoothStep(m, x, centreWeight)[i] >= 0.0 {
      assert centreWeight * x[i] >= 0.0;
      assert (1.0 - centreWeight) * sx[i] >= 0.0;
    }
  }

  /** A matrix with non-negative entries maps a non-negative field to a non-negative one. */
  lemma MultNonNegative(m: SmoothingMatrix, x: Field)
    requires MatrixWellFormed(m) && |x| == |m.diagonal|
    requires NonNegativeEntries(m) && NonNegative(x)
    ensures NonNegative(Mult(m, x))
  {
    var sx := Mult(m, x);
    forall i | 0 <= i < |x| ensures sx[i] >= 0.0 {
      RowDotNonNegative(m, x, i, RowStart(m, i), RowEnd(m, i));
      assert m.diagonal[i] * x[i] >= 0.0;
    }
  }

  lemma {:induction false} RowDotScale(m: SmoothingMatrix, x: Field, c: real, i: int, lo: int, hi: int)
    requires 0 <= lo <= hi <= |m.col| == |m.offDiagonal|
    requires forall k :: lo <= k < hi ==> 0 <= m.col[k] < |x|
    ensures RowDot(m, Scale(c, x), i, lo, hi) == c * RowDot(m, x, i, lo, hi)
    decreases hi - lo
  {
    if hi > lo {
      RowDotScale(m, x, c, i, lo, hi - 1);
    }
  }

  /** The operator is linear: one round on `c * x` is `c` times one round on `x`. */
  lemma SmoothStepScale(m: SmoothingMatrix, x: Field, c: real, centreWeight: real)
    requires MatrixWellFormed(m) && |x| == |m.diagonal|
    ensures SmoothStep(m, Scale(c, x), centreWeight) == Scale(c, SmoothStep(m, x, centreWeight))
  {
    var y, z := SmoothStep(m, Scale(c, x), centreWeight), Scale(c, SmoothStep(m, x, centreWeight));
    var sx, scx := Mult(m, x), Mult(m, Scale(c, x));
    forall i | 0 <= i < |x| ensures y[i] == z[i] {
      MultScale(m, x, c, i);
      assert y[i] == centreWeight * (c * x[i]) + (1.0 - centreWeight) * scx[i];
      assert z[i] == c * (centreWeight * x[i] + (1.0 - centreWeight) * sx[i]);
    }
  }

  lemma MultScale(m: SmoothingMatrix, x: Field, c: real, i: int)
    requires MatrixWellFormed(m) && |x| == |m.diagonal| && 0 <= i < |x|
    ensures Mult(m, Scale(c, x))[i] == c * Mult(m, x)[i]
  {
    RowDotScale(m, x, c, i, RowStart(m, i), RowEnd(m, i));
    assert Scale(c, x)[i] == c * x[i];
  }

  /** The sum of the off-diagonal entries of row `i` between `lo` and `hi`, skipping the overwritten diagonal position. */
  function OffSum(m: SmoothingMatrix, i: int, lo: int, hi: int): real
    requires 0 <= lo <= hi <= |m.col| == |m.offDiagonal|
    decreases hi - lo
  {
    if hi == lo then 0.0 else OffSum(m, i, lo, hi - 1) + (if m.col[hi - 1] == i then 0.0 else m.offDiagonal[hi - 1])
  }

  /** The sum of row `i`: its diagonal and its off-diagonal entries. */
  function RowSum(m: SmoothingMatrix, i: int): real
    requires MatrixWellFormed(m) && 0 <= i < |m.diagonal|
  {
    m.diagonal[i] + OffSum(m, i, RowStart(m, i), RowEnd(m, i))
  }

  function Constant(n: nat, c: real): (x: Field)
    ensures |x| == n
  {
    seq(n, _ => c)
  }

  lemma {:induction false} RowDotConstant(m: SmoothingMatrix, n: nat, c: real, i: int, lo: int, hi: int)
    requires 0 <= lo <= hi <= |m.col| == |m.offDiagonal|
    requires forall k :: lo <= k < hi ==> 0 <= m.col[k] < n
    ensures RowDot(m, Constant(n, c), i, lo, hi) == c * OffSum(m, i, lo, hi)
    decreases hi - lo
  {
    if hi > lo {
      RowDotConstant(m, n, c, i, lo, hi - 1);
    }
  }

  /**
   * One round on a constant field `c` gives `c * (cw + (1 - cw) * rowSum)` at
   * each node, so for `c != 0` and `cw != 1` a node keeps its value exactly
   * when its row adds up to one.
   */
  lemma ConstantFieldStep(m: SmoothingMatrix, c: real, centreWeight: real, i: int)
    requires MatrixWellFormed(m) && 0 <= i < |m.diagonal|
    ensures SmoothStep(m, Constant(|m.diagonal|, c), centreWeight)[i]
            == c * (centreWeight + (1.0 - centreWeight) * RowSum(m, i))
    ensures c != 0.0 && centreWeight != 1.0 ==>
              (SmoothStep(m, Constant(|m.diagonal|, c), centreWeight)[i] == c <==> RowSum(m, i) == 1.0)
  {
    var n := |m.diagonal|;
    var r := RowSum(m, i);
    MultConstant(m, c, i);
    var v := SmoothStep(m, Constant(n, c), centreWeight)[i];
    assert v == centreWeight * c + (1.0 - centreWeight) * (c * r);
    assert centreWeight * c + (1.0 - centreWeight) * (c * r) == c * (centreWeight + (1.0 - centreWeight) * r);
    if c != 0.0 && centreWeight != 1.0 {
      KeptIffUnitRow(c, centreWeight, r, v);
    }
  }

  /** The product with a constant field is the constant times the row sum. */
  lemma MultConstant(m: SmoothingMatrix, c: real, i: int)
    requires MatrixWellFormed(m) && 0 <= i < |m.diagonal|
    ensures Mult(m, Constant(|m.diagonal|, c))[i] == c * RowSum(m, i)
  {
    RowDotConstant(m, |m.diagonal|, c, i, RowStart(m, i), RowEnd(m, i));
  }

  lemma KeptIffUnitRow(c: real, centreWeight: real, r: real, v: real)
    requires c != 0.0 && centreWeight != 1.0
    requires v == c * (centreWeight + (1.0 - centreWeight) * r)
    ensures v == c <==> r == 1.0
  {
    if v == c {
      var e := r - 1.0;
      assert c * ((1.0 - centreWeight) * e) == 0.0;
      ProductZero(c, (1.0 - centreWeight) * e);
      ProductZero(1.0 - centreWeight, e);
    }
  }

  lemma ProductZero(a: real, b: real)
    requires a != 0.0 && a * b == 0.0
    ensures b == 0.0
  {
  }

  /** The directed entries of a single triangle's edges. */
  lemma TriangleEntries()
    ensures Directed([Edge(0, 1), Edge(0, 2), Edge(1, 2)], [1.0, 1.0, 1.0])
            == [Entry(0, 1, 1.0), Entry(0, 2, 1.0), Entry(1, 2, 1.0),
                Entry(1, 0, 1.0), Entry(2, 0, 1.0), Entry(2, 1, 1.0)]
  {
  }

  /** Six entries whose rows run 0, 0, 1, 1, 2, 2 fall into three buckets of two. */
  lemma PairedBuckets(es: seq<Entry>, r: int)
    requires |es| == 6 && forall k :: 0 <= k < 6 ==> es[k].row == k / 2
    requires 0 <= r < 3
    ensures Bucket(es, r) == [es[2 * r], es[2 * r + 1]]
  {
    var e0, e1, e2, e3, e4, e5 := es[0], es[1], es[2], es[3], es[4], es[5];
    assert es[..5] == [e0, e1, e2, e3, e4];
    assert [e0, e1, e2, e3, e4][..4] == [e0, e1, e2, e3];
    assert [e0, e1, e2, e3][..3] == [e0, e1, e2];
    assert [e0, e1, e2][..2] == [e0, e1];
    assert [e0, e1][..1] == [e0];
    assert [e0][..0] == [];
    assert Bucket([e0], r) == if r == 0 then [e0] else [];
    if r == 0 {
      assert Bucket([e0, e1], 0) == [e0, e1];
      assert Bucket([e0, e1, e2], 0) == [e0, e1];
      assert Bucket([e0, e1, e2, e3], 0) == [e0, e1];
      assert Bucket([e0, e1, e2, e3, e4], 0) == [e0, e1];
    } else if r == 1 {
      assert Bucket([e0, e1], 1) == [];
      assert Bucket([e0, e1, e2], 1) == [e2];
      assert Bucket([e0, e1, e2, e3], 1) == [e2, e3];
      assert Bucket([e0, e1, e2, e3, e4], 1) == [e2, e3];
    } else {
      assert Bucket([e0, e1], 2) == [];
      assert Bucket([e0, e1, e2], 2) == [];
      assert Bucket([e0, e1, e2, e3], 2) == [];
      assert Bucket([e0, e1, e2, e3, e4], 2) == [e4];
    }
  }

  /** The CSR arrays of six entries with rows 0, 0, 1, 1, 2, 2 keep them in order. */
  lemma PairedCsr(es: seq<Entry>)
    requires |es| == 6 && forall k :: 0 <= k < 6 ==> es[k].row == k / 2
    ensures RowsNonNegative(es)
    ensures EntriesToCsr(es).indptr == [0, 2, 4, 6] && EntriesToCsr(es).col == Cols(es)
  {
    assert RowsNonNegative(es);
    assert RowCount(es) == 3 by {
      assert es[5].row == 2;
    }
    PairedBuckets(es, 0);
    PairedBuckets(es, 1);
    PairedBuckets(es, 2);
    var counts := Counts(es);
    assert counts == [2, 2, 2];
    assert counts[..0] == [] && counts[..1] == [2] && counts[..2] == [2, 2] && counts[..3] == [2, 2, 2];
    assert [2, 2][..1] == [2] && [2, 2, 2][..2] == [2, 2] && [2][..0] == [];
    assert Offsets(counts) == [0, 2, 4, 6];
    assert SortedUpTo(es, 1) == [es[0], es[1]];
    assert SortedUpTo(es, 2) == [es[0], es[1], es[2], es[3]];
    assert SortedUpTo(es, 3) == [es[0], es[1], es[2], es[3], es[4], es[5]];
    assert Sorted(es) == es;
  }

  /**
   * A single triangle: every node has valence one and two neighbours, so each
   * row of the matrix adds up to three, and one round with centre weight 0.5
   * turns the constant field 1 into the constant field 2.
   */
  lemma OneTriangleDoublesConstant(edges: seq<Edge>, lengths: seq<real>, csr: Csr)
    requires edges == [Edge(0, 1), Edge(0, 2), Edge(1, 2)] && lengths == [1.0, 1.0, 1.0]
    requires csr == ConstructCsr(edges, lengths)
    ensures csr.indptr == [0, 2, 4, 6] && csr.col == [1, 2, 2, 0, 0, 1] && WellFormed(csr)
    ensures SmoothStep(BuildSmoothingMatrix(csr, [1, 1, 1]), [1.0, 1.0, 1.0], 0.5) == [2.0, 2.0, 2.0]
  {
    TriangleCsr();
    TriangleUnitWeights(csr);
    TriangleMatrixDoubles(BuildSmoothingMatrix(csr, [1, 1, 1]));
  }

  /** With every valence one, the triangle's matrix holds only ones. */
  lemma TriangleUnitWeights(csr: Csr)
    requires csr.indptr == [0, 2, 4, 6] && csr.col == [1, 2, 2, 0, 0, 1] && WellFormed(csr)
    ensures var m := BuildSmoothingMatrix(csr, [1, 1, 1]);
            m.indptr == [0, 2, 4, 6] && m.col == [1, 2, 2, 0, 0, 1]
            && m.offDiagonal == [1.0, 1.0, 1.0, 1.0, 1.0, 1.0] && m.diagonal == [1.0, 1.0, 1.0]
  {
  }

  /** The CSR layout of a single triangle. */
  lemma TriangleCsr()
    ensures var csr := ConstructCsr([Edge(0, 1), Edge(0, 2), Edge(1, 2)], [1.0, 1.0, 1.0]);
            csr.indptr == [0, 2, 4, 6] && csr.col == [1, 2, 2, 0, 0, 1] && WellFormed(csr)
  {
    var edges := [Edge(0, 1), Edge(0, 2), Edge(1, 2)];
    TriangleEntries();
    var es := Directed(edges, [1.0, 1.0, 1.0]);
    PairedCsr(es);
    assert Cols(es) == [1, 2, 2, 0, 0, 1];
  }

  /**
   * A node joined to itself by a degenerate edge: its row holds two CSR
   * entries in the diagonal position, both replaced by the diagonal, so the
   * product is the diagonal value alone.
   */
  lemma SelfLoopKeepsDiagonal(csr: Csr)
    requires csr == ConstructCsr([Edge(0, 0)], [1.0])
    ensures csr.indptr == [0, 2] && csr.col == [0, 0] && WellFormed(csr)
    ensures Mult(BuildSmoothingMatrix(csr, [1]), [1.0]) == [1.0]
  {
    var es := Directed([Edge(0, 0)], [1.0]);
    assert es == [Entry(0, 0, 1.0), Entry(0, 0, 1.0)];
    SelfLoopCsr(es);
    assert csr == EntriesToCsr(es);
    SelfLoopProduct(BuildSmoothingMatrix(csr, [1]));
  }

  /** The CSR arrays of two entries in position `(0, 0)`. */
  lemma SelfLoopCsr(es: seq<Entry>)
    requires es == [Entry(0, 0, 1.0), Entry(0, 0, 1.0)]
    ensures RowsNonNegative(es)
    ensures EntriesToCsr(es).indptr == [0, 2] && EntriesToCsr(es).col == [0, 0]
  {
    SelfLoopRows(es);
    assert Counts(es) == [2];
    assert [2][..0] == [] && [2][..1] == [2];
    assert Offsets([2]) == [0, 2];
    assert SortedUpTo(es, 1) == SortedUpTo(es, 0) + Bucket(es, 0) == es;
    assert Sorted(es) == es;
  }

  /** Both entries fall in the single row 0. */
  lemma SelfLoopRows(es: seq<Entry>)
    requires es == [Entry(0, 0, 1.0), Entry(0, 0, 1.0)]
    ensures RowsNonNegative(es) && RowCount(es) == 1 && Bucket(es, 0) == es
  {
    var e := Entry(0, 0, 1.0);
    assert es[..1] == [e] && [e][..0] == [];
    assert Bucket([e], 0) == [e];
    assert Bucket(es, 0) == [e] + [e] == es;
    assert RowCount([e]) == 1;
  }

  lemma SelfLoopProduct(m: SmoothingMatrix)
    requires m.indptr == [0, 2] && m.col == [0, 0] && |m.offDiagonal| == 2 && m.diagonal == [1.0]
    ensures MatrixWellFormed(m)
    ensures Mult(m, [1.0]) == [1.0]
  {
    assert RowDot(m, [1.0], 0, 0, 2) == 0.0;
  }

  /** The triangle's matrix has rows of three ones, so one half-weighted round doubles a constant one. */
  lemma TriangleMatrixDoubles(m: SmoothingMatrix)
    requires m.indptr == [0, 2, 4, 6] && m.col == [1, 2, 2, 0, 0, 1]
    requires m.offDiagonal == [1.0, 1.0, 1.0, 1.0, 1.0, 1.0] && m.diagonal == [1.0, 1.0, 1.0]
    ensures MatrixWellFormed(m)
    ensures SmoothStep(m, [1.0, 1.0, 1.0], 0.5) == [2.0, 2.0, 2.0]
  {
    assert MatrixWellFormed(m);
    assert [1.0, 1.0, 1.0] == Constant(3, 1.0);
    forall i | 0 <= i < 3
      ensures SmoothStep(m, [1.0, 1.0, 1.0], 0.5)[i] == 2.0
    {
      ConstantFieldStep(m, 1.0, 0.5, i);
      assert RowStart(m, i) == 2 * i && RowEnd(m, i) == 2 * i + 2;
      assert OffSum(m, i, 2 * i, 2 * i + 2) == 2.0;
    }
  }
}
