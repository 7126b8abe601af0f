/** Real vectors with exact arithmetic: the rows of a codebook, the activation at
    one position, a gradient. */
module Vectors {

  type Vector = seq<real>

  function Zero(n: nat): (z: Vector)
    ensures |z| == n
    ensures forall i :: 0 <= i < n ==> z[i] == 0.0
  {
    seq(n, _ => 0.0)
  }

  function Add(a: Vector, b: Vector): (c: Vector)
    requires |a| == |b|
    ensures |c| == |a|
    ensures forall i :: 0 <= i < |c| ==> c[i] == a[i] + b[i]
  {
    seq(|a|, i requires 0 <= i < |a| => a[i] + b[i])
  }

  function Scale(k: real, a: Vector): (c: Vector)
    ensures |c| == |a|
    ensures forall i :: 0 <= i < |c| ==> c[i] == k * a[i]
  {
    seq(|a|, i requires 0 <= i < |a| => k * a[i])
  }

  /** The inner product; `torch.matmul(inputs, codebook.T)` computes one per code. */
  function Dot(a: Vector, b: Vector): real
    requires |a| == |b|
  {
    if |a| == 0 then 0.0 else a[0] * b[0] + Dot(a[1..], b[1..])
  }

  /** The squared Euclidean distance. */
  function SqDist(a: Vector, b: Vector): real
    requires |a| == |b|
  {
    if |a| == 0 then 0.0 else (a[0] - b[0]) * (a[0] - b[0]) + SqDist(a[1..], b[1..])
  }

  function Sum(w: seq<real>): real
  {
    if |w| == 0 then 0.0 else w[0] + Sum(w[1..])
  }

  /** Coordinate `k` of every row: a column of the matrix whose rows are `rows`. */
  function Coordinates(rows: seq<Vector>, k: nat): (col: Vector)
    requires forall c :: 0 <= c < |rows| ==> k < |rows[c]|
    ensures |col| == |rows|
    ensures forall c :: 0 <= c < |rows| ==> col[c] == rows[c][k]
  {
    seq(|rows|, c requires 0 <= c < |rows| => rows[c][k])
  }

  /** The linear combination `w[0] * rows[0] + ... + w[k-1] * rows[k-1]` of rows of length `n`:
      the vector-matrix product `w @ rows`, so coordinate `k` is `w` dotted with column `k`. */
  function Combine(w: seq<real>, rows: seq<Vector>, n: nat): (v: Vector)
    requires |w| == |rows|
    requires forall c :: 0 <= c < |rows| ==> |rows[c]| == n
    ensures |v| == n
    ensures forall k :: 0 <= k < n ==> v[k] == Dot(w, Coordinates(rows, k))
  {
    if |w| == 0 then Zero(n)
    else
      var v := Add(Scale(w[0], rows[0]), Combine(w[1..], rows[1..], n));
      assert forall k :: 0 <= k < n ==> v[k] == Dot(w, Coordinates(rows, k)) by {
        forall k | 0 <= k < n
          ensures v[k] == Dot(w, Coordinates(rows, k))
        {
          CoordinatesTail(rows, k);
        }
      }
      v
  }

  lemma CoordinatesTail(rows: seq<Vector>, k: nat)
    requires |rows| > 0
    requires forall c :: 0 <= c < |rows| ==> k < |rows[c]|
    ensures Coordinates(rows, k)[1..] == Coordinates(rows[1..], k)
  {
  }

  /** Non-negative weights summing to one. */
  predicate IsConvexWeights(w: seq<real>)
  {
    (forall c :: 0 <= c < |w| ==> 0.0 <= w[c]) && Sum(w) == 1.0
  }

  lemma AddZeroRight(a: Vector)
    ensures Add(a, Zero(|a|)) == a
  {
  }

  lemma AddAssoc(a: Vector, b: Vector, c: Vector)
    requires |a| == |b| == |c|
    ensures Add(Add(a, b), c) == Add(a, Add(b, c))
  {
  }

  lemma {:induction false} SqDistNonNegative(a: Vector, b: Vector)
    requires |a| == |b|
    ensures 0.0 <= SqDist(a, b)
  {
    if |a| > 0 {
      SqDistNonNegative(a[1..], b[1..]);
    }
  }

  /** The inner product is additive in its left argument. */
  lemma {:induction false} DotAddLeft(a: Vector, b: Vector, d: Vector)
    requires |a| == |b| == |d|
    ensures Dot(Add(a, b), d) == Dot(a, d) + Dot(b, d)
  {
    if |a| > 0 {
      assert Add(a, b)[1..] == Add(a[1..], b[1..]);
      DotAddLeft(a[1..], b[1..], d[1..]);
    }
  }

  /** The inner product is additive in its right argument. */
  lemma {:induction false} DotAddRight(g: Vector, a: Vector, b: Vector)
    requires |g| == |a| == |b|
    ensures Dot(g, Add(a, b)) == Dot(g, a) + Dot(g, b)
  {
    if |g| > 0 {
      assert Add(a, b)[1..] == Add(a[1..], b[1..]);
      DotAddRight(g[1..], a[1..], b[1..]);
    }
  }

  lemma {:induction false} DotZeroLeft(d: Vector)
    ensures Dot(Zero(|d|), d) == 0.0
  {
    if |d| > 0 {
      assert Zero(|d|)[1..] == Zero(|d| - 1);
      DotZeroLeft(d[1..]);
    }
  }

  /** Coordinate `k` of a combination with non-negative weights lies between the
      weight total times the smallest and times the largest coordinate `k` of the rows. */
  lemma {:induction false} CombineBetween(w: seq<real>, rows: seq<Vector>, n: nat, k: nat, lo: real, hi: real)
    requires |w| == |rows|
    requires forall c :: 0 <= c < |rows| ==> |rows[c]| == n
    requires k < n
    requires forall c :: 0 <= c < |w| ==> 0.0 <= w[c]
    requires forall c :: 0 <= c < |rows| ==> lo <= rows[c][k] <= hi
    ensures lo * Sum(w) <= Combine(w, rows, n)[k] <= hi * Sum(w)
  {
    DotBetween(w, Coordinates(rows, k), lo, hi);
  }

  /** A dot product with non-negative weights lies between the weight total
      times the smallest and times the largest entry. */
  lemma DotBetween(w: seq<real>, x: Vector, lo: real, hi: real)
    requires |w| == |x|
    requires forall c :: 0 <= c < |w| ==> 0.0 <= w[c]
    requires forall c :: 0 <= c < |x| ==> lo <= x[c] <= hi
    ensures lo * Sum(w) <= Dot(w, x) <= hi * Sum(w)
  {
    DotAtLeast(w, x, lo);
    DotAtMost(w, x, hi);
  }

  lemma {:induction false} DotAtLeast(w: seq<real>, x: Vector, lo: real)
    requires |w| == |x|
    requires forall c :: 0 <= c < |w| ==> 0.0 <= w[c]
    requires forall c :: 0 <= c < |x| ==> lo <= x[c]
    ensures lo * Sum(w) <= Dot(w, x)
  {
    if |w| > 0 {
      DotAtLeast(w[1..], x[1..], lo);
      StepAtLeast(w[0], x[0], Sum(w[1..]), Dot(w[1..], x[1..]), Sum(w), Dot(w, x), lo);
    }
  }

  lemma {:induction false} DotAtMost(w: seq<real>, x: Vector, hi: real)
    requires |w| == |x|
    requires forall c :: 0 <= c < |w| ==> 0.0 <= w[c]
    requires forall c :: 0 <= c < |x| ==> x[c] <= hi
    ensures Dot(w, x) <= hi * Sum(w)
  {
    if |w| > 0 {
      DotAtMost(w[1..], x[1..], hi);
      StepAtMost(w[0], x[0], Sum(w[1..]), Dot(w[1..], x[1..]), Sum(w), Dot(w, x), hi);
    }
  }

  /** One term of a weighted sum added to a rest that is already bounded below. */
  lemma StepAtLeast(a: real, b: real, s: real, d: real, total: real, e: real, lo: real)
    requires 0.0 <= a && lo <= b && lo * s <= d
    requires total == a + s && e == a * b + d
    ensures lo * total <= e
  {
    assert 0.0 <= a * (b - lo);
  }

  /** One term of a weighted sum added to a rest that is already bounded above. */
  lemma StepAtMost(a: real, b: real, s: real, d: real, total: real, e: real, hi: real)
    requires 0.0 <= a && b <= hi && d <= hi * s
    requires total == a + s && e == a * b + d
    ensures e <= hi * total
  {
    assert 0.0 <= a * (hi - b);
  }

  /** A convex combination stays inside the per-coordinate range of the rows it mixes. */
  lemma ConvexCombinationWithinRange(w: seq<real>, rows: seq<Vector>, n: nat, k: nat, lo: real, hi: real)
    requires |w| == |rows|
    requires forall c :: 0 <= c < |rows| ==> |rows[c]| == n
    requires k < n
    requires IsConvexWeights(w)
    requires forall c :: 0 <= c < |rows| ==> lo <= rows[c][k] <= hi
    ensures lo <= Combine(w, rows, n)[k] <= hi
  {
    CombineBetween(w, rows, n, k, lo, hi);
  }
}
