/**
 * Dense per-node fields and the handful of NumPy array operations the mesh
 * code uses on them, over exact reals.
 */
module Numeric {

  /** A dense per-node scalar field (a NumPy float array). */
  type Field = seq<real>

  /** `a.sum()`, accumulated from the front. */
  function Sum(s: seq<real>): real
  {
    if |s| == 0 then 0.0 else Sum(s[..|s| - 1]) + s[|s| - 1]
  }

  /** Sum of a pointwise sum is the sum of the sums. */
  lemma {:induction false} SumPointwise(a: seq<real>, b: seq<real>, c: seq<real>)
    requires |a| == |b| == |c|
    requires forall i :: 0 <= i < |c| ==> c[i] == a[i] + b[i]
    ensures Sum(c) == Sum(a) + Sum(b)
  {
    if |c| > 0 {
      SumPointwise(a[..|a| - 1], b[..|b| - 1], c[..|c| - 1]);
    }
  }

  /** `a.max()`: NumPy raises on an empty array, so the caller must supply one element. */
  function Max(s: seq<real>): (m: real)
    requires |s| > 0
    ensures forall i :: 0 <= i < |s| ==> s[i] <= m
    ensures exists i :: 0 <= i < |s| && s[i] == m
  {
    if |s| == 1 then s[0]
    else
      var m' := Max(s[..|s| - 1]);
      assert forall i :: 0 <= i < |s| - 1 ==> s[..|s| - 1][i] == s[i];
      if s[|s| - 1] > m' then s[|s| - 1] else m'
  }

  /**
   * Scaling by a positive factor keeps the position of the maximum: where `s`
   * is largest, `t = c * s` is largest too.
   */
  lemma ScaledMaxAttained(s: seq<real>, t: seq<real>, c: real, i: int)
    requires c > 0.0 && |t| == |s| && 0 <= i < |s|
    requires forall k :: 0 <= k < |s| ==> t[k] == c * s[k]
    requires s[i] == Max(s)
    ensures Max(t) == t[i]
  {
    ScaledBound(s, t, c, i);
    MaxAt(t, i);
  }

  lemma ScaledBound(s: seq<real>, t: seq<real>, c: real, i: int)
    requires c > 0.0 && |t| == |s| && 0 <= i < |s|
    requires forall k :: 0 <= k < |s| ==> t[k] == c * s[k]
    requires forall k :: 0 <= k < |s| ==> s[k] <= s[i]
    ensures forall k :: 0 <= k < |t| ==> t[k] <= t[i]
  {
    forall k | 0 <= k < |s| ensures t[k] <= t[i] {
      ScaleMonotone(c, s[k], s[i]);
    }
  }

  /** An entry that bounds every entry is the maximum. */
  lemma MaxAt(s: seq<real>, i: int)
    requires 0 <= i < |s|
    requires forall k :: 0 <= k < |s| ==> s[k] <= s[i]
    ensures Max(s) == s[i]
  {
    var j :| 0 <= j < |s| && s[j] == Max(s);
  }

  lemma ScaleMonotone(c: real, a: real, b: real)
    requires c > 0.0 && a <= b
    ensures c * a <= c * b
  {
    assert c * b - c * a == c * (b - a);
  }

  /** `Scale` multiplies every entry. */
  lemma ScaleAt(c: real, a: Field)
    ensures |Scale(c, a)| == |a|
    ensures forall k :: 0 <= k < |a| ==> Scale(c, a)[k] == c * a[k]
  {
  }

  /** `a.min()` for a non-empty array. */
  function Min(s: seq<real>): (m: real)
    requires |s| > 0
    ensures forall i :: 0 <= i < |s| ==> m <= s[i]
    ensures exists i :: 0 <= i < |s| && s[i] == m
  {
    if |s| == 1 then s[0]
    else
      var m' := Min(s[..|s| - 1]);
      assert forall i :: 0 <= i < |s| - 1 ==> s[..|s| - 1][i] == s[i];
      if s[|s| - 1] < m' then s[|s| - 1] else m'
  }

  function Abs(x: real): real
  {
    if x < 0.0 then -x else x
  }

  /** `np.maximum(a, b)`: every entry is at least both inputs and equal to one of them. */
  function Maximum(a: Field, b: Field): (r: Field)
    requires |a| == |b|
    ensures |r| == |a|
    ensures forall i :: 0 <= i < |r| ==> a[i] <= r[i] && b[i] <= r[i]
    ensures forall i :: 0 <= i < |r| ==> r[i] == a[i] || r[i] == b[i]
  {
    seq(|a|, i requires 0 <= i < |a| => if a[i] >= b[i] then a[i] else b[i])
  }

  /** `np.minimum(a, b)`: every entry is at most both inputs and equal to one of them. */
  function Minimum(a: Field, b: Field): (r: Field)
    requires |a| == |b|
    ensures |r| == |a|
    ensures forall i :: 0 <= i < |r| ==> r[i] <= a[i] && r[i] <= b[i]
    ensures forall i :: 0 <= i < |r| ==> r[i] == a[i] || r[i] == b[i]
  {
    seq(|a|, i requires 0 <= i < |a| => if a[i] <= b[i] then a[i] else b[i])
  }

  function Sub(a: Field, b: Field): Field
    requires |a| == |b|
  {
    seq(|a|, i requires 0 <= i < |a| => a[i] - b[i])
  }

  function Mul(a: Field, b: Field): Field
    requires |a| == |b|
  {
    seq(|a|, i requires 0 <= i < |a| => a[i] * b[i])
  }

  /** `a / b`; every node area the mesh divides by is non-zero. */
  function Div(a: Field, b: Field): Field
    requires |a| == |b|
    requires forall i :: 0 <= i < |b| ==> b[i] != 0.0
  {
    seq(|a|, i requires 0 <= i < |a| => a[i] / b[i])
  }

  function Scale(c: real, a: Field): Field
  {
    seq(|a|, i requires 0 <= i < |a| => c * a[i])
  }

  /** `a[idx].mean()` for a non-empty index list (NumPy gives nan on an empty one). */
  function Mean(a: Field, idx: seq<int>): real
    requires |idx| > 0
    requires forall k :: 0 <= k < |idx| ==> 0 <= idx[k] < |a|
  {
    Sum(Gather(a, idx)) / (|idx| as real)
  }

  /** `a[idx]`: fancy indexing with an index list. */
  function Gather(a: Field, idx: seq<int>): (r: Field)
    requires forall k :: 0 <= k < |idx| ==> 0 <= idx[k] < |a|
    ensures |r| == |idx|
  {
    seq(|idx|, k requires 0 <= k < |idx| => a[idx[k]])
  }

  /** The mean of a selection lies between its smallest and largest member. */
  lemma MeanBounds(a: Field, idx: seq<int>, lo: real, hi: real)
    requires |idx| > 0
    requires forall k :: 0 <= k < |idx| ==> 0 <= idx[k] < |a|
    requires forall k :: 0 <= k < |idx| ==> lo <= a[idx[k]] <= hi
    ensures lo <= Mean(a, idx) <= hi
  {
    var g := Gather(a, idx);
    SumBounds(g, lo, hi);
  }

  lemma {:induction false} SumBounds(s: seq<real>, lo: real, hi: real)
    requires forall i :: 0 <= i < |s| ==> lo <= s[i] <= hi
    ensures (|s| as real) * lo <= Sum(s) <= (|s| as real) * hi
  {
    if |s| > 0 {
      SumBounds(s[..|s| - 1], lo, hi);
    }
  }
}
