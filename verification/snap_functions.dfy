/** The snap functions of `codebook_features/models.py`: the forward pass that
    replaces every activation vector by its best-matching codebook row, under the
    inner-product or the Euclidean metric, and the straight-through backward rule
    both share. */
module SnapFunctions {
  import opened Errors
  import opened Vectors
  import opened Tensors

  /** Which snap function a codebook layer applies. */
  datatype Metric = Euclidean | InnerProduct

  /** `k` is the first index holding the largest score (the tie rule of `argmax`). */
  ghost predicate IsFirstMax(s: seq<real>, k: int)
  {
    && 0 <= k < |s|
    && (forall j :: 0 <= j < |s| ==> s[j] <= s[k])
    && (forall j :: 0 <= j < k ==> s[j] < s[k])
  }

  /** `k` is the first index holding the smallest score (the tie rule of `argmin`). */
  ghost predicate IsFirstMin(s: seq<real>, k: int)
  {
    && 0 <= k < |s|
    && (forall j :: 0 <= j < |s| ==> s[k] <= s[j])
    && (forall j :: 0 <= j < k ==> s[k] < s[j])
  }

  /** Scans `s[i..]` keeping `best`, the first maximum of `s[..i]`. */
  function ArgMaxFrom(s: seq<real>, i: nat, best: nat): (k: nat)
    requires best < i <= |s|
    requires IsFirstMax(s[..i], best)
    ensures IsFirstMax(s, k)
    decreases |s| - i
  {
    if i == |s| then
      assert s[..i] == s;
      best
    else if s[best] < s[i] then
      ArgMaxFrom(s, i + 1, i)
    else
      ArgMaxFrom(s, i + 1, best)
  }

  function ArgMax(s: seq<real>): (k: nat)
    requires |s| > 0
    ensures IsFirstMax(s, k)
  {
    ArgMaxFrom(s, 1, 0)
  }

  function Negate(s: seq<real>): (t: seq<real>)
    ensures |t| == |s|
    ensures forall j :: 0 <= j < |s| ==> t[j] == -s[j]
  {
    seq(|s|, j requires 0 <= j < |s| => -s[j])
  }

  function ArgMin(s: seq<real>): (k: nat)
    requires |s| > 0
    ensures IsFirstMin(s, k)
  {
    ArgMax(Negate(s))
  }

  lemma FirstMinUnique(s: seq<real>, a: int, b: int)
    requires IsFirstMin(s, a) && IsFirstMin(s, b)
    ensures a == b
  {
    assert s[a] <= s[b] && s[b] <= s[a];
  }

  /** `argmin` picks the same index after any strictly increasing map of
      non-negative scores: `cdist` reports `sqrt` of the squared distance, and
      this is why the model may compare squared distances instead. */
  lemma ArgMinUnderIncreasingMap(s: seq<real>, f: real -> real)
    requires |s| > 0
    requires forall j :: 0 <= j < |s| ==> 0.0 <= s[j]
    requires forall a: real, b: real :: 0.0 <= a < b ==> f(a) < f(b)
    ensures ArgMin(seq(|s|, j requires 0 <= j < |s| => f(s[j]))) == ArgMin(s)
  {
    var t := seq(|s|, j requires 0 <= j < |s| => f(s[j]));
    var k := ArgMin(s);
    forall j | 0 <= j < |s|
      ensures t[k] <= t[j]
      ensures j < k ==> t[k] < t[j]
    {
      if s[k] < s[j] {
        assert f(s[k]) < f(s[j]);
      }
    }
    assert IsFirstMin(t, k);
    FirstMinUnique(t, k, ArgMin(t));
  }

  /** The logits of the inner-product snap: one dot product per code. */
  function DotScores(x: Vector, cb: Matrix): (s: seq<real>)
    requires |x| == cb.dim
    ensures |s| == |cb.rows|
    ensures forall j :: 0 <= j < |s| ==> s[j] == Dot(x, cb.rows[j])
  {
    seq(|cb.rows|, j requires 0 <= j < |cb.rows| => Dot(x, cb.rows[j]))
  }

  /** The squared distance from `x` to every code. */
  function DistScores(x: Vector, cb: Matrix): (s: seq<real>)
    requires |x| == cb.dim
    ensures |s| == |cb.rows|
    ensures forall j :: 0 <= j < |s| ==> s[j] == SqDist(x, cb.rows[j])
  {
    seq(|cb.rows|, j requires 0 <= j < |cb.rows| => SqDist(x, cb.rows[j]))
  }

  /** `k` is the code the metric selects for `x`: the first code of largest dot
      product, or the first code of smallest distance. */
  ghost predicate IsChoice(metric: Metric, x: Vector, cb: Matrix, k: int)
    requires |x| == cb.dim
  {
    match metric
    case InnerProduct => IsFirstMax(DotScores(x, cb), k)
    case Euclidean => IsFirstMin(DistScores(x, cb), k)
  }

  /** The code selected for one activation vector. */
  function SelectCode(metric: Metric, x: Vector, cb: Matrix): (k: nat)
    requires |x| == cb.dim && |cb.rows| > 0
    ensures k < |cb.rows|
    ensures IsChoice(metric, x, cb, k)
  {
    match metric
    case InnerProduct => ArgMax(DotScores(x, cb))
    case Euclidean => ArgMin(DistScores(x, cb))
  }

  /** The Euclidean choice is the argmin of the true distances `cdist` computes,
      for any strictly increasing square root. */
  lemma EuclideanChoiceMatchesDistance(x: Vector, cb: Matrix, sqrt: real -> real)
    requires |x| == cb.dim && |cb.rows| > 0
    requires forall a: real, b: real :: 0.0 <= a < b ==> sqrt(a) < sqrt(b)
    ensures ArgMin(seq(|cb.rows|, j requires 0 <= j < |cb.rows| => sqrt(SqDist(x, cb.rows[j]))))
            == SelectCode(Euclidean, x, cb)
  {
    var s := DistScores(x, cb);
    forall j | 0 <= j < |s|
      ensures 0.0 <= s[j]
    {
      SqDistNonNegative(x, cb.rows[j]);
    }
    ArgMinUnderIncreasingMap(s, sqrt);
    assert seq(|s|, j requires 0 <= j < |s| => sqrt(s[j]))
        == seq(|cb.rows|, j requires 0 <= j < |cb.rows| => sqrt(SqDist(x, cb.rows[j])));
  }

  /** `torch.nn.functional.embedding(ids, codebook)`: the rows at the given ids. */
  function Embedding(cb: Matrix, ids: seq<nat>): (out: seq<Vector>)
    requires forall i :: 0 <= i < |ids| ==> ids[i] < |cb.rows|
    ensures |out| == |ids|
    ensures forall i :: 0 <= i < |ids| ==> out[i] == cb.rows[ids[i]]
  {
    seq(|ids|, i requires 0 <= i < |ids| => cb.rows[ids[i]])
  }

  datatype SnapResult = SnapResult(outputs: Tensor, ids: seq<nat>)

  /** The forward pass of `InnerProductSnapFunction` / `EuclideanSnapFunction`.
      `torch.cdist` takes only inputs of at least two axes. */
  function SnapForward(metric: Metric, inputs: Tensor, cb: Matrix): (r: Result<SnapResult>)
    ensures metric == Euclidean && |inputs.shape| < 2 ==> r == Err(RuntimeError)
    ensures LastDim(inputs) != cb.dim ==> r == Err(RuntimeError)
    ensures (metric == InnerProduct || |inputs.shape| >= 2) && LastDim(inputs) == cb.dim && |cb.rows| == 0 ==>
              r == Err(IndexError)
    ensures (metric == InnerProduct || |inputs.shape| >= 2) && LastDim(inputs) == cb.dim && |cb.rows| > 0 ==>
              r.Ok?
    ensures r.Ok? ==>
      && r.value.outputs.shape == inputs.shape
      && |r.value.ids| == |inputs.data|
      && forall i :: 0 <= i < |inputs.data| ==>
           && r.value.ids[i] < |cb.rows|
           && IsChoice(metric, inputs.data[i], cb, r.value.ids[i])
           && r.value.outputs.data[i] == cb.rows[r.value.ids[i]]
  {
    if metric == Euclidean && |inputs.shape| < 2 then
      Err(RuntimeError)
    else if LastDim(inputs) != cb.dim then
      Err(RuntimeError)
    else if |cb.rows| == 0 then
      Err(IndexError)
    else
      var ids := seq(|inputs.data|, i requires 0 <= i < |inputs.data| => SelectCode(metric, inputs.data[i], cb));
      Ok(SnapResult(RawTensor(inputs.shape, Embedding(cb, ids)), ids))
  }

  /** The sum of the vectors of `g` at positions whose id is `j`; the zero vector
      when no position chose `j`. */
  function SelectedSum(g: seq<Vector>, ids: seq<nat>, j: nat, n: nat): (v: Vector)
    requires |g| == |ids|
    requires forall i :: 0 <= i < |g| ==> |g[i]| == n
    ensures |v| == n
  {
    if |ids| == 0 then Zero(n)
    else if ids[0] == j then Add(g[0], SelectedSum(g[1..], ids[1..], j, n))
    else SelectedSum(g[1..], ids[1..], j, n)
  }

  /** Adds `g[i]` into row `ids[i]` of `acc` for every position, the way the
      backward pass of `embedding` accumulates into the codebook gradient. */
  function ScatterAdd(acc: seq<Vector>, ids: seq<nat>, g: seq<Vector>, n: nat): (r: seq<Vector>)
    requires |g| == |ids|
    requires forall i :: 0 <= i < |ids| ==> ids[i] < |acc| && |g[i]| == n
    requires forall j :: 0 <= j < |acc| ==> |acc[j]| == n
    ensures |r| == |acc|
    ensures forall j :: 0 <= j < |r| ==> |r[j]| == n
    decreases |ids|
  {
    if |ids| == 0 then acc
    else ScatterAdd(acc[ids[0] := Add(acc[ids[0]], g[0])], ids[1..], g[1..], n)
  }

  lemma {:induction false} ScatterAddIsSelectedSum(acc: seq<Vector>, ids: seq<nat>, g: seq<Vector>, n: nat)
    requires |g| == |ids|
    requires forall i :: 0 <= i < |ids| ==> ids[i] < |acc| && |g[i]| == n
    requires forall j :: 0 <= j < |acc| ==> |acc[j]| == n
    ensures forall j :: 0 <= j < |acc| ==> ScatterAdd(acc, ids, g, n)[j] == Add(acc[j], SelectedSum(g, ids, j, n))
    decreases |ids|
  {
    if |ids| == 0 {
      forall j | 0 <= j < |acc| {
        AddZeroRight(acc[j]);
      }
    } else {
      var acc' := acc[ids[0] := Add(acc[ids[0]], g[0])];
      ScatterAddIsSelectedSum(acc', ids[1..], g[1..], n);
      forall j | 0 <= j < |acc|
        ensures ScatterAdd(acc, ids, g, n)[j] == Add(acc[j], SelectedSum(g, ids, j, n))
      {
        if ids[0] == j {
          AddAssoc(acc[j], g[0], SelectedSum(g[1..], ids[1..], j, n));
        }
      }
    }
  }

  datatype Gradients = Gradients(inputs: seq<Vector>, codebook: Matrix)

  /** `BaseSnapFunction.backward`: the straight-through estimator. The input
      gradient is the output gradient unchanged; the codebook gradient is the
      gradient of the `embedding` lookup that produced the outputs. */
  function Backward(cb: Matrix, ids: seq<nat>, gradOutputs: seq<Vector>): (g: Gradients)
    requires |gradOutputs| == |ids|
    requires forall i :: 0 <= i < |ids| ==> ids[i] < |cb.rows| && |gradOutputs[i]| == cb.dim
    ensures g.inputs == gradOutputs
    ensures g.codebook.dim == cb.dim && |g.codebook.rows| == |cb.rows|
    ensures forall j :: 0 <= j < |cb.rows| ==> g.codebook.rows[j] == SelectedSum(gradOutputs, ids, j, cb.dim)
  {
    var zeros := seq(|cb.rows|, _ => Zero(cb.dim));
    ScatterAddIsSelectedSum(zeros, ids, gradOutputs, cb.dim);
    assert forall j :: 0 <= j < |cb.rows| ==>
      Add(zeros[j], SelectedSum(gradOutputs, ids, j, cb.dim)) == SelectedSum(gradOutputs, ids, j, cb.dim);
    Gradients(gradOutputs, RawMatrix(cb.dim, ScatterAdd(zeros, ids, gradOutputs, cb.dim)))
  }

  /** A row no position selected receives a zero gradient. */
  lemma {:induction false} UnselectedRowGetsZero(g: seq<Vector>, ids: seq<nat>, j: nat, n: nat)
    requires |g| == |ids|
    requires forall i :: 0 <= i < |g| ==> |g[i]| == n
    requires j !in ids
    ensures SelectedSum(g, ids, j, n) == Zero(n)
  {
    if |ids| > 0 {
      assert j !in ids[1..];
      UnselectedRowGetsZero(g[1..], ids[1..], j, n);
    }
  }

  /** The codebook with `delta` added to row `j`. */
  function Perturb(cb: Matrix, j: nat, delta: Vector): (p: Matrix)
    requires j < |cb.rows| && |delta| == cb.dim
  {
    RawMatrix(cb.dim, cb.rows[j := Add(cb.rows[j], delta)])
  }

  /** `sum_i <g[i], out[i]>`: the first-order change of a loss whose gradient
      with respect to the outputs is `g`. */
  function Pairing(g: seq<Vector>, out: seq<Vector>): real
    requires |g| == |out|
    requires forall i :: 0 <= i < |g| ==> |g[i]| == |out[i]|
  {
    if |g| == 0 then 0.0 else Dot(g[0], out[0]) + Pairing(g[1..], out[1..])
  }

  lemma {:induction false} PairingPerturbed(cb: Matrix, ids: seq<nat>, g: seq<Vector>, j: nat, delta: Vector)
    requires |g| == |ids|
    requires forall i :: 0 <= i < |ids| ==> ids[i] < |cb.rows| && |g[i]| == cb.dim
    requires j < |cb.rows| && |delta| == cb.dim
    ensures Pairing(g, Embedding(Perturb(cb, j, delta), ids))
            == Pairing(g, Embedding(cb, ids)) + Dot(SelectedSum(g, ids, j, cb.dim), delta)
  {
    var p := Perturb(cb, j, delta);
    if |ids| == 0 {
      DotZeroLeft(delta);
    } else {
      PairingPerturbed(cb, ids[1..], g[1..], j, delta);
      assert Embedding(p, ids)[1..] == Embedding(p, ids[1..]);
      assert Embedding(cb, ids)[1..] == Embedding(cb, ids[1..]);
      if ids[0] == j {
        DotAddRight(g[0], cb.rows[j], delta);
        DotAddLeft(g[0], SelectedSum(g[1..], ids[1..], j, cb.dim), delta);
      }
    }
  }

  /** The straight-through rule gives the exact gradient of the lookup: moving
      row `j` by `delta` changes `sum_i <g[i], out[i]>` by `<grad_codebook[j], delta>`. */
  lemma CodebookGradientIsExact(cb: Matrix, ids: seq<nat>, g: seq<Vector>, j: nat, delta: Vector)
    requires |g| == |ids|
    requires forall i :: 0 <= i < |ids| ==> ids[i] < |cb.rows| && |g[i]| == cb.dim
    requires j < |cb.rows| && |delta| == cb.dim
    ensures Pairing(g, Embedding(Perturb(cb, j, delta), ids))
            == Pairing(g, Embedding(cb, ids)) + Dot(Backward(cb, ids, g).codebook.rows[j], delta)
  {
    PairingPerturbed(cb, ids, g, j, delta);
  }
}
