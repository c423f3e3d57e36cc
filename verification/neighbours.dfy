/**
 * The CSR neighbour graph (`TriMesh.construct_neighbours`) and its row
 * slices (`TriMesh.node_neighbours`).
 *
 * Every edge is entered in both directions, the entries are sorted by row,
 * `np.bincount` counts the entries of each row (for rows `0 .. max(row)`), and
 * the prefix sums of the counts, with a leading zero, are `indptr`. `argsort`
 * does not fix the order of entries within a row; the model sorts stably, and
 * every property below is about the set of entries in a row.
 */
module Neighbours {
  import opened Geometry
  import opened Edges

  /** One stacked `(row, col, val)` triple. */
  datatype Entry = Entry(row: int, col: int, dist: real)

  /** The CSR arrays: `indptr`, `col`, the aligned distances, and `vertex_neighbours` (the counts). */
  datatype Csr = Csr(indptr: seq<int>, col: seq<int>, dist: seq<real>, counts: seq<int>)

  /** `np.hstack` of the edges in both directions, with their lengths twice. */
  function Directed(edges: seq<Edge>, lengths: seq<real>): (es: seq<Entry>)
    requires |lengths| == |edges|
    ensures |es| == 2 * |edges|
  {
    seq(|edges|, k requires 0 <= k < |edges| => Entry(edges[k].lo, edges[k].hi, lengths[k]))
    + seq(|edges|, k requires 0 <= k < |edges| => Entry(edges[k].hi, edges[k].lo, lengths[k]))
  }

  /** The entries of row `r`, in stacking order. */
  function Bucket(es: seq<Entry>, r: int): seq<Entry>
  {
    if |es| == 0 then []
    else Bucket(es[..|es| - 1], r) + (if es[|es| - 1].row == r then [es[|es| - 1]] else [])
  }

  /** A row bucket holds exactly the entries of that row. */
  lemma {:induction false} BucketMembers(es: seq<Entry>, r: int)
    ensures forall x :: x in Bucket(es, r) <==> x in es && x.row == r
  {
    if |es| > 0 {
      BucketMembers(es[..|es| - 1], r);
      assert es == es[..|es| - 1] + [es[|es| - 1]];
    }
  }

  /** The entries with a row below `m`, in stacking order. */
  function Below(es: seq<Entry>, m: int): seq<Entry>
  {
    if |es| == 0 then []
    else Below(es[..|es| - 1], m) + (if es[|es| - 1].row < m then [es[|es| - 1]] else [])
  }

  /** The entries sorted by row: the rows `0 .. m-1` one after the other. */
  function SortedUpTo(es: seq<Entry>, m: nat): seq<Entry>
  {
    if m == 0 then [] else SortedUpTo(es, m - 1) + Bucket(es, m - 1)
  }

  predicate RowsNonNegative(es: seq<Entry>)
  {
    forall k :: 0 <= k < |es| ==> es[k].row >= 0
  }

  /** The length of `np.bincount(row)`: one more than the largest row, zero with no rows. */
  function RowCount(es: seq<Entry>): (r: nat)
    requires RowsNonNegative(es)
    ensures forall k :: 0 <= k < |es| ==> es[k].row < r
    ensures |es| > 0 ==> exists k :: 0 <= k < |es| && es[k].row == r - 1
    ensures |es| == 0 ==> r == 0
  {
    if |es| == 0 then 0
    else
      var front := es[..|es| - 1];
      assert forall k :: 0 <= k < |front| ==> front[k] == es[k];
      var r' := RowCount(front);
      if es[|es| - 1].row + 1 > r' then es[|es| - 1].row + 1 else r'
  }

  /** The sum of a list of counts. */
  function Total(s: seq<int>): int
  {
    if |s| == 0 then 0 else Total(s[..|s| - 1]) + s[|s| - 1]
  }

  /** `indptr = np.insert(np.cumsum(nnz), 0, 0)`. */
  function Offsets(nnz: seq<int>): (indptr: seq<int>)
    ensures |indptr| == |nnz| + 1
  {
    seq(|nnz| + 1, i requires 0 <= i <= |nnz| => Total(nnz[..i]))
  }

  /** `np.bincount(row)`: the number of entries in each row `0 .. max(row)`. */
  function Counts(es: seq<Entry>): (nnz: seq<int>)
    requires RowsNonNegative(es)
    ensures |nnz| == RowCount(es)
  {
    seq(RowCount(es), i requires 0 <= i < RowCount(es) => |Bucket(es, i)|)
  }

  /** The entries after the sort by row. */
  function Sorted(es: seq<Entry>): seq<Entry>
    requires RowsNonNegative(es)
  {
    SortedUpTo(es, RowCount(es))
  }

  function Cols(es: seq<Entry>): (c: seq<int>)
    ensures |c| == |es|
  {
    seq(|es|, k requires 0 <= k < |es| => es[k].col)
  }

  function Dists(es: seq<Entry>): (d: seq<real>)
    ensures |d| == |es|
  {
    seq(|es|, k requires 0 <= k < |es| => es[k].dist)
  }

  /** The CSR arrays of a list of entries. */
  function EntriesToCsr(es: seq<Entry>): Csr
    requires RowsNonNegative(es)
  {
    Csr(Offsets(Counts(es)), Cols(Sorted(es)), Dists(Sorted(es)), Counts(es))
  }

  /**
   * The CSR graph built from the edges and their lengths: `indptr` starts at
   * zero, never decreases, steps by the row counts, and ends at twice the
   * number of edges, the length of `col` and of the distances.
   */
  function ConstructCsr(edges: seq<Edge>, lengths: seq<real>): (csr: Csr)
    requires |lengths| == |edges|
    requires forall k :: 0 <= k < |edges| ==> edges[k].lo >= 0 && edges[k].hi >= 0
    ensures |csr.indptr| == |csr.counts| + 1 && csr.indptr[0] == 0
    ensures forall i :: 0 <= i < |csr.counts| ==> csr.indptr[i + 1] - csr.indptr[i] == csr.counts[i] >= 0
    ensures forall i, j :: 0 <= i <= j < |csr.indptr| ==> csr.indptr[i] <= csr.indptr[j]
    ensures csr.indptr[|csr.indptr| - 1] == |csr.col| == |csr.dist| == 2 * |edges|
  {
    var es := Directed(edges, lengths);
    CsrShape(es);
    EntriesToCsr(es)
  }

  lemma CsrShape(es: seq<Entry>)
    requires RowsNonNegative(es)
    ensures var csr := EntriesToCsr(es);
      && |csr.indptr| == |csr.counts| + 1 && csr.indptr[0] == 0
      && (forall i :: 0 <= i < |csr.counts| ==> csr.indptr[i + 1] - csr.indptr[i] == csr.counts[i] >= 0)
      && (forall i, j :: 0 <= i <= j < |csr.indptr| ==> csr.indptr[i] <= csr.indptr[j])
      && csr.indptr[|csr.indptr| - 1] == |csr.col| == |csr.dist| == |es|
  {
    var r := RowCount(es);
    var nnz := Counts(es);
    var indptr := Offsets(nnz);
    OffsetsAreSortedPrefixes(es, nnz, r);
    assert indptr[0] == 0 by {
      assert nnz[..0] == [];
    }
    forall i | 0 <= i < r ensures indptr[i + 1] - indptr[i] == nnz[i] >= 0 {
      assert indptr[i + 1] == |SortedUpTo(es, i + 1)|;
      assert indptr[i] == |SortedUpTo(es, i)|;
    }
    forall i, j | 0 <= i <= j < |indptr| ensures indptr[i] <= indptr[j] {
      SortedPrefix(es, i, j);
    }
    SortedHoldsAllEntries(es, r);
    assert indptr[r] == |Sorted(es)| == |es|;
  }

  lemma OffsetsAreSortedPrefixes(es: seq<Entry>, nnz: seq<int>, r: nat)
    requires |nnz| == r && forall i :: 0 <= i < r ==> nnz[i] == |Bucket(es, i)|
    ensures forall i :: 0 <= i <= r ==> Offsets(nnz)[i] == |SortedUpTo(es, i)|
  {
    forall i | 0 <= i <= r ensures Offsets(nnz)[i] == |SortedUpTo(es, i)| {
      TotalPrefix(es, nnz, i);
    }
  }

  lemma {:induction false} TotalPrefix(es: seq<Entry>, nnz: seq<int>, i: nat)
    requires i <= |nnz| && forall j :: 0 <= j < |nnz| ==> nnz[j] == |Bucket(es, j)|
    ensures Total(nnz[..i]) == |SortedUpTo(es, i)|
  {
    if i > 0 {
      assert nnz[..i][..i - 1] == nnz[..i - 1];
      TotalPrefix(es, nnz, i - 1);
    }
  }

  lemma {:induction false} BelowSplit(es: seq<Entry>, m: int)
    ensures |Below(es, m + 1)| == |Below(es, m)| + |Bucket(es, m)|
  {
    if |es| > 0 {
      BelowSplit(es[..|es| - 1], m);
    }
  }

  lemma {:induction false} BelowZero(es: seq<Entry>)
    requires RowsNonNegative(es)
    ensures Below(es, 0) == []
  {
    if |es| > 0 {
      BelowZero(es[..|es| - 1]);
    }
  }

  lemma {:induction false} BelowAll(es: seq<Entry>, m: int)
    requires forall k :: 0 <= k < |es| ==> es[k].row < m
    ensures Below(es, m) == es
  {
    if |es| > 0 {
      var front := es[..|es| - 1];
      assert forall k :: 0 <= k < |front| ==> front[k] == es[k];
      BelowAll(front, m);
      assert Below(es, m) == front + [es[|es| - 1]];
      assert front + [es[|es| - 1]] == es;
    }
  }

  lemma {:induction false} SortedIsBelow(es: seq<Entry>, m: nat)
    requires RowsNonNegative(es)
    ensures |SortedUpTo(es, m)| == |Below(es, m)|
  {
    if m == 0 {
      BelowZero(es);
    } else {
      SortedIsBelow(es, m - 1);
      BelowSplit(es, m - 1);
      assert SortedUpTo(es, m) == SortedUpTo(es, m - 1) + Bucket(es, m - 1);
    }
  }

  lemma {:induction false} BelowSplitMultiset(es: seq<Entry>, m: int)
    ensures multiset(Below(es, m)) == multiset(Below(es, m - 1)) + multiset(Bucket(es, m - 1))
  {
    if |es| > 0 {
      BelowSplitMultiset(es[..|es| - 1], m);
    }
  }

  lemma {:induction false} SortedIsBelowMultiset(es: seq<Entry>, m: nat)
    requires Below(es, 0) == []
    ensures multiset(SortedUpTo(es, m)) == multiset(Below(es, m))
  {
    if m > 0 {
      SortedIsBelowMultiset(es, m - 1);
      SortedStepMultiset(es, m);
    }
  }

  lemma SortedStepMultiset(es: seq<Entry>, m: nat)
    requires m > 0 && multiset(SortedUpTo(es, m - 1)) == multiset(Below(es, m - 1))
    ensures multiset(SortedUpTo(es, m)) == multiset(Below(es, m))
  {
    var prev, bucket := SortedUpTo(es, m - 1), Bucket(es, m - 1);
    assert SortedUpTo(es, m) == prev + bucket;
    BelowSplitMultiset(es, m);
  }

  /** Sorting by row neither drops nor adds entries: the sorted list is a permutation of the input. */
  lemma SortedHoldsAllEntries(es: seq<Entry>, r: nat)
    requires RowsNonNegative(es)
    requires forall k :: 0 <= k < |es| ==> es[k].row < r
    ensures |SortedUpTo(es, r)| == |es|
    ensures multiset(SortedUpTo(es, r)) == multiset(es)
  {
    SortedIsBelow(es, r);
    BelowZero(es);
    SortedIsBelowMultiset(es, r);
    BelowAll(es, r);
  }

  lemma {:induction false} SortedPrefix(es: seq<Entry>, m1: nat, m2: nat)
    requires m1 <= m2
    ensures |SortedUpTo(es, m1)| <= |SortedUpTo(es, m2)|
    ensures SortedUpTo(es, m2)[..|SortedUpTo(es, m1)|] == SortedUpTo(es, m1)
  {
    if m1 < m2 {
      SortedPrefix(es, m1, m2 - 1);
      var a, b := SortedUpTo(es, m1), SortedUpTo(es, m2 - 1);
      assert SortedUpTo(es, m2) == b + Bucket(es, m2 - 1);
      assert (b + Bucket(es, m2 - 1))[..|a|] == b[..|a|];
    }
  }

  /** Row `i` of the sorted entries sits exactly between `indptr[i]` and `indptr[i+1]`. */
  lemma RowSlice(es: seq<Entry>, r: nat, i: nat)
    requires i < r
    ensures |SortedUpTo(es, i + 1)| <= |SortedUpTo(es, r)|
    ensures SortedUpTo(es, r)[|SortedUpTo(es, i)|..|SortedUpTo(es, i + 1)|] == Bucket(es, i)
  {
    SortedPrefix(es, i + 1, r);
    var all := SortedUpTo(es, r);
    var a, b := SortedUpTo(es, i), SortedUpTo(es, i + 1);
    assert b == a + Bucket(es, i);
    assert all[|a|..|b|] == b[|a|..];
  }

  /** Sorting by row only rearranges entries: every sorted entry is one of the input entries. */
  lemma {:induction false} SortedMembers(es: seq<Entry>, m: nat)
    ensures forall x :: x in SortedUpTo(es, m) ==> x in es
  {
    if m > 0 {
      SortedMembers(es, m - 1);
      BucketMembers(es, m - 1);
    }
  }

  predicate EntriesWithin(es: seq<Entry>, npoints: int)
  {
    forall k :: 0 <= k < |es| ==> 0 <= es[k].row < npoints && 0 <= es[k].col < npoints
  }

  lemma DirectedWithin(edges: seq<Edge>, lengths: seq<real>, npoints: int)
    requires |lengths| == |edges| && EdgesWithin(edges, npoints)
    ensures EntriesWithin(Directed(edges, lengths), npoints)
  {
    var es := Directed(edges, lengths);
    forall k | 0 <= k < |es| ensures 0 <= es[k].row < npoints && 0 <= es[k].col < npoints {
      var e := edges[if k < |edges| then k else k - |edges|];
    }
  }

  lemma EntriesCsrWithin(es: seq<Entry>, npoints: nat)
    requires EntriesWithin(es, npoints)
    ensures RowsNonNegative(es)
    ensures var csr := EntriesToCsr(es);
      |csr.indptr| - 1 <= npoints && forall k :: 0 <= k < |csr.col| ==> 0 <= csr.col[k] < npoints
  {
    var r := RowCount(es);
    if |es| > 0 {
      var k :| 0 <= k < |es| && es[k].row == r - 1;
    }
    assert r <= npoints;
    assert |EntriesToCsr(es).indptr| == r + 1;
    SortedMembers(es, r);
    var sorted := Sorted(es);
    forall k | 0 <= k < |sorted| ensures 0 <= sorted[k].col < npoints {
      assert sorted[k] in es;
    }
  }

  /**
   * On a mesh of `npoints` nodes the graph has at most `npoints` rows and every
   * column names a node.
   */
  lemma CsrWithin(edges: seq<Edge>, lengths: seq<real>, npoints: nat)
    requires |lengths| == |edges| && EdgesWithin(edges, npoints)
    ensures var csr := ConstructCsr(edges, lengths);
      && WellFormed(csr) && |csr.indptr| - 1 <= npoints
      && forall k :: 0 <= k < |csr.col| ==> 0 <= csr.col[k] < npoints
  {
    var es := Directed(edges, lengths);
    DirectedWithin(edges, lengths, npoints);
    EntriesCsrWithin(es, npoints);
    assert ConstructCsr(edges, lengths) == EntriesToCsr(es);
  }

  /** Node `i` is an endpoint of some edge. */
  predicate OnEdge(edges: seq<Edge>, i: int)
  {
    exists k :: 0 <= k < |edges| && (edges[k].lo == i || edges[k].hi == i)
  }

  /**
   * When every node is an endpoint of some edge, `np.bincount` reaches the last
   * node, so the graph has exactly one row per node.
   */
  lemma RowPerNode(edges: seq<Edge>, lengths: seq<real>, npoints: nat)
    requires |lengths| == |edges| && EdgesWithin(edges, npoints)
    requires forall i :: 0 <= i < npoints ==> OnEdge(edges, i)
    ensures |ConstructCsr(edges, lengths).indptr| == npoints + 1
  {
    var es := Directed(edges, lengths);
    DirectedWithin(edges, lengths, npoints);
    EntriesCsrWithin(es, npoints);
    assert ConstructCsr(edges, lengths) == EntriesToCsr(es);
    assert |EntriesToCsr(es).indptr| == RowCount(es) + 1;
    if npoints > 0 {
      assert OnEdge(edges, npoints - 1);
      var k :| 0 <= k < |edges| && (edges[k].lo == npoints - 1 || edges[k].hi == npoints - 1);
      var m := if edges[k].lo == npoints - 1 then k else k + |edges|;
      assert es[m].row == npoints - 1;
    }
  }

  /** `node_neighbours(point)`: the column slice of row `point`. */
  function NodeNeighbours(csr: Csr, point: int): seq<int>
    requires 0 <= point < |csr.indptr| - 1
    requires 0 <= csr.indptr[point] <= csr.indptr[point + 1] <= |csr.col|
  {
    csr.col[csr.indptr[point]..csr.indptr[point + 1]]
  }

  /** The shape `ConstructCsr` guarantees, as a predicate for callers. */
  predicate WellFormed(csr: Csr)
  {
    && |csr.indptr| >= 1 && csr.indptr[0] == 0
    && (forall i, j :: 0 <= i <= j < |csr.indptr| ==> csr.indptr[i] <= csr.indptr[j])
    && csr.indptr[|csr.indptr| - 1] == |csr.col| == |csr.dist|
  }

  /** Two nodes are joined by an edge of the list, in either orientation. */
  predicate Joined(edges: seq<Edge>, i: int, j: int)
  {
    exists k :: 0 <= k < |edges| && ((edges[k].lo == i && edges[k].hi == j) || (edges[k].lo == j && edges[k].hi == i))
  }

  predicate Canonical(edges: seq<Edge>)
  {
    forall k :: 0 <= k < |edges| ==> 0 <= edges[k].lo <= edges[k].hi
  }

  /** Row `i` of the CSR arrays holds exactly the entries of row `i`. */
  lemma RowOfCsr(es: seq<Entry>, i: int)
    requires RowsNonNegative(es)
    requires 0 <= i < RowCount(es)
    ensures var csr := EntriesToCsr(es);
      && WellFormed(csr)
      && Sorted(es)[csr.indptr[i]..csr.indptr[i + 1]] == Bucket(es, i)
  {
    var r := RowCount(es);
    CsrShape(es);
    OffsetsAreSortedPrefixes(es, Counts(es), r);
    RowSlice(es, r, i);
    var csr := EntriesToCsr(es);
    assert csr.indptr[i] == |SortedUpTo(es, i)|;
    assert csr.indptr[i + 1] == |SortedUpTo(es, i + 1)|;
  }

  /** Membership in a slice that equals a row bucket. */
  lemma SliceMembers(sorted: seq<Entry>, lo: int, hi: int, es: seq<Entry>, i: int)
    requires 0 <= lo <= hi <= |sorted| && sorted[lo..hi] == Bucket(es, i)
    ensures forall k :: lo <= k < hi ==> sorted[k] in es && sorted[k].row == i
    ensures forall x :: x in es && x.row == i ==> exists k :: lo <= k < hi && sorted[k] == x
  {
    BucketMembers(es, i);
    forall k | lo <= k < hi ensures sorted[k] in es && sorted[k].row == i {
      assert sorted[k] == sorted[lo..hi][k - lo];
    }
    forall x | x in es && x.row == i ensures exists k :: lo <= k < hi && sorted[k] == x {
      assert x in sorted[lo..hi];
      var p :| 0 <= p < hi - lo && sorted[lo..hi][p] == x;
      assert sorted[lo + p] == x;
    }
  }

  /** Every directed entry carries the length of the canonical edge it came from. */
  lemma EntriesCarryLengths(points: seq<Point>, norm: Norm, edges: seq<Edge>)
    requires Canonical(edges) && EdgesWithin(edges, |points|)
    ensures forall x :: x in Directed(edges, EdgeLengths(points, norm, edges)) ==>
              0 <= x.col < |points| && x.dist == Length(points, norm, Canon(x.row, x.col))
  {
    var es := Directed(edges, EdgeLengths(points, norm, edges));
    forall x | x in es ensures 0 <= x.col < |points| && x.dist == Length(points, norm, Canon(x.row, x.col)) {
      var k :| 0 <= k < |es| && es[k] == x;
      var e := edges[if k < |edges| then k else k - |edges|];
      assert Canon(x.row, x.col) == e;
    }
  }

  /** An entry `(i, j)` exists exactly when an edge joins `i` and `j`. */
  lemma EntriesAreJoins(edges: seq<Edge>, lengths: seq<real>, i: int, j: int)
    requires |lengths| == |edges|
    ensures (exists x :: x in Directed(edges, lengths) && x.row == i && x.col == j) <==> Joined(edges, i, j)
  {
    var es := Directed(edges, lengths);
    if exists x :: x in es && x.row == i && x.col == j {
      var x :| x in es && x.row == i && x.col == j;
      var m :| 0 <= m < |es| && es[m] == x;
      var e := if m < |edges| then m else m - |edges|;
      assert (edges[e].lo == i && edges[e].hi == j) || (edges[e].lo == j && edges[e].hi == i);
    }
    if Joined(edges, i, j) {
      var e :| 0 <= e < |edges| && ((edges[e].lo == i && edges[e].hi == j) || (edges[e].lo == j && edges[e].hi == i));
      var m := if edges[e].lo == i && edges[e].hi == j then e else e + |edges|;
      assert es[m] in es && es[m].row == i && es[m].col == j;
    }
  }

  /** The columns of a slice that equals a row bucket are the columns of that row's entries. */
  lemma SliceColumns(col: seq<int>, dist: seq<real>, sorted: seq<Entry>, lo: int, hi: int, es: seq<Entry>, i: int)
    requires |col| == |sorted| == |dist|
    requires forall k :: 0 <= k < |sorted| ==> col[k] == sorted[k].col && dist[k] == sorted[k].dist
    requires 0 <= lo <= hi <= |sorted| && sorted[lo..hi] == Bucket(es, i)
    ensures forall j :: j in col[lo..hi] <==> exists x :: x in es && x.row == i && x.col == j
    ensures forall k :: lo <= k < hi ==>
              sorted[k] in es && sorted[k].row == i && sorted[k].col == col[k] && sorted[k].dist == dist[k]
  {
    SliceMembers(sorted, lo, hi, es, i);
    forall j ensures j in col[lo..hi] <==> exists x :: x in es && x.row == i && x.col == j {
      if j in col[lo..hi] {
        var p :| 0 <= p < hi - lo && col[lo..hi][p] == j;
        assert sorted[lo + p] in es && sorted[lo + p].row == i && sorted[lo + p].col == j;
      }
      if exists x :: x in es && x.row == i && x.col == j {
        var x :| x in es && x.row == i && x.col == j;
        var k :| lo <= k < hi && sorted[k] == x;
        assert col[lo..hi][k - lo] == j;
      }
    }
  }

  /**
   * What row `i` of the graph holds: its neighbours are exactly the nodes joined
   * to `i` by an edge, and the distance stored beside each neighbour `j` is the
   * length of edge `{i, j}`.
   */
  lemma NeighbourRow(points: seq<Point>, norm: Norm, edges: seq<Edge>, i: int)
    requires Canonical(edges) && EdgesWithin(edges, |points|)
    requires 0 <= i < |ConstructCsr(edges, EdgeLengths(points, norm, edges)).indptr| - 1
    ensures var csr := ConstructCsr(edges, EdgeLengths(points, norm, edges));
      && WellFormed(csr)
      && (forall j :: j in NodeNeighbours(csr, i) <==> Joined(edges, i, j))
      && (forall k :: csr.indptr[i] <= k < csr.indptr[i + 1] ==>
            0 <= csr.col[k] < |points| && csr.dist[k] == Length(points, norm, Canon(i, csr.col[k])))
  {
    var lengths := EdgeLengths(points, norm, edges);
    var es := Directed(edges, lengths);
    var csr := ConstructCsr(edges, lengths);
    assert csr == EntriesToCsr(es);
    RowOfCsr(es, i);
    var lo, hi := csr.indptr[i], csr.indptr[i + 1];
    SliceColumns(csr.col, csr.dist, Sorted(es), lo, hi, es, i);
    forall j ensures j in NodeNeighbours(csr, i) <==> Joined(edges, i, j) {
      EntriesAreJoins(edges, lengths, i, j);
    }
    EntriesCarryLengths(points, norm, edges);
  }

  /**
   * Neighbour symmetry: `j` is a neighbour of `i` exactly when `i` is a
   * neighbour of `j`, and, when no edge is a loop, no node is its own neighbour.
   */
  lemma NeighbourSymmetry(points: seq<Point>, norm: Norm, edges: seq<Edge>, i: int, j: int)
    requires Canonical(edges) && EdgesWithin(edges, |points|)
    requires var csr := ConstructCsr(edges, EdgeLengths(points, norm, edges));
      0 <= i < |csr.indptr| - 1 && 0 <= j < |csr.indptr| - 1
    ensures var csr := ConstructCsr(edges, EdgeLengths(points, norm, edges));
      WellFormed(csr) && (j in NodeNeighbours(csr, i) <==> i in NodeNeighbours(csr, j))
    ensures var csr := ConstructCsr(edges, EdgeLengths(points, norm, edges));
      (forall k :: 0 <= k < |edges| ==> edges[k].lo < edges[k].hi) ==> i !in NodeNeighbours(csr, i)
  {
    NeighbourRow(points, norm, edges, i);
    NeighbourRow(points, norm, edges, j);
  }

  /**
   * The loop of `construct_neighbours` that fills `neighbour_list` and
   * `neighbour_array`: for each row of `indptr`, the row's column slice, and
   * the node itself followed by that slice. Nodes past the last row keep the
   * empty list that both lists start with.
   */
  method NeighbourLists(csr: Csr, npoints: nat) returns (neighbours: seq<seq<int>>, closed: seq<seq<int>>)
    requires WellFormed(csr) && |csr.indptr| - 1 <= npoints
    ensures |neighbours| == npoints && |closed| == npoints
    ensures forall i :: 0 <= i < |csr.indptr| - 1 ==>
              neighbours[i] == NodeNeighbours(csr, i) && closed[i] == [i] + neighbours[i]
    ensures forall i :: |csr.indptr| - 1 <= i < npoints ==> neighbours[i] == [] && closed[i] == []
  {
    neighbours := seq(npoints, _ => []);
    closed := seq(npoints, _ => []);
    var i := 0;
    while i < |csr.indptr| - 1
      invariant 0 <= i <= |csr.indptr| - 1
      invariant |neighbours| == npoints && |closed| == npoints
      invariant forall k :: 0 <= k < i ==> neighbours[k] == NodeNeighbours(csr, k) && closed[k] == [k] + neighbours[k]
      invariant forall k :: i <= k < npoints ==> neighbours[k] == [] && closed[k] == []
    {
      var start, end := csr.indptr[i], csr.indptr[i + 1];
      neighbours := neighbours[i := csr.col[start..end]];
      closed := closed[i := [i] + neighbours[i]];
      i := i + 1;
    }
  }
}
