/** `CodebookLayer` of `codebook_features/models.py`: one codebook, its usage
    counter, the hard and soft forward passes, and code expiry. */
module CodebookLayers {
  import opened Errors
  import opened Vectors
  import opened Tensors
  import opened SnapFunctions

  /** The layer's state: the codebook weight, the `Counter` of selected ids, the
      `soft_snap` flag and the snap function. */
  datatype CodebookLayer = CodebookLayer(codebook: Matrix, counts: map<nat, nat>, softSnap: bool, metric: Metric)

  /** `counter[j]`: a `Counter` reports 0 for a missing key. */
  function Count(counts: map<nat, nat>, j: nat): nat
  {
    if j in counts then counts[j] else 0
  }

  /** `Counter.update(ids)`: one more use of every listed id. */
  function Tally(counts: map<nat, nat>, ids: seq<nat>): (c: map<nat, nat>)
    ensures c.Keys == counts.Keys + set i | i in ids
    ensures forall j :: Count(c, j) == Count(counts, j) + multiset(ids)[j]
    decreases |ids|
  {
    if |ids| == 0 then counts
    else
      assert ids == [ids[0]] + ids[1..];
      Tally(counts[ids[0] := Count(counts, ids[0]) + 1], ids[1..])
  }

  /** Counts accumulate: tallying two batches in turn is tallying their concatenation. */
  lemma TallyAccumulates(counts: map<nat, nat>, a: seq<nat>, b: seq<nat>)
    ensures Tally(Tally(counts, a), b) == Tally(counts, a + b)
  {
    var x := Tally(Tally(counts, a), b);
    var y := Tally(counts, a + b);
    MembersOfConcat(a, b);
    forall j
      ensures Count(x, j) == Count(y, j)
    {
      assert multiset(a + b)[j] == multiset(a)[j] + multiset(b)[j];
    }
    SameCountsSameMap(x, y);
  }

  /** Two counters with the same keys and the same counts are equal. */
  lemma SameCountsSameMap(x: map<nat, nat>, y: map<nat, nat>)
    requires x.Keys == y.Keys
    requires forall j :: Count(x, j) == Count(y, j)
    ensures x == y
  {
    forall j | j in x
      ensures x[j] == y[j]
    {
      assert Count(x, j) == Count(y, j);
    }
  }

  lemma MembersOfConcat(a: seq<nat>, b: seq<nat>)
    ensures (set i | i in a + b) == (set i | i in a) + (set i | i in b)
  {
    forall i: nat
      ensures i in a + b <==> i in a || i in b
    {
      assert multiset(a + b) == multiset(a) + multiset(b);
      assert i in a + b <==> multiset(a + b)[i] > 0;
    }
  }

  datatype Step = Step(layer: CodebookLayer, output: Tensor)

  /** The soft-mode output at one position: the rows averaged with the weights
      `softmax` assigns to the dot-product logits. */
  function SoftSnapVector(x: Vector, cb: Matrix, softmax: seq<real> -> seq<real>): (v: Vector)
    requires |x| == cb.dim
    requires forall s :: |softmax(s)| == |s|
    ensures |v| == cb.dim
  {
    Combine(softmax(DotScores(x, cb)), cb.rows, cb.dim)
  }

  /** `CodebookLayer.forward`. The input must have rank 3; hard mode snaps and
      tallies the selected ids, soft mode averages the codebook rows with the
      softmax weights of the logits and leaves the counts alone. */
  function Forward(layer: CodebookLayer, x: Tensor, softmax: seq<real> -> seq<real>): (r: Result<Step>)
    requires forall s :: |softmax(s)| == |s|
    ensures |x.shape| != 3 ==> r == Err(AssertionError)
    ensures r.Ok? ==>
      && r.value.layer.codebook == layer.codebook
      && r.value.layer.softSnap == layer.softSnap
      && r.value.layer.metric == layer.metric
      && r.value.output.shape == x.shape
    ensures |x.shape| == 3 && !layer.softSnap ==>
      var s := SnapForward(layer.metric, x, layer.codebook);
      && r.Ok? == s.Ok?
      && (s.Err? ==> r == Err(s.error))
      && (s.Ok? ==>
            && r.value.output == s.value.outputs
            && r.value.layer.counts.Keys == layer.counts.Keys + (set i | i in s.value.ids)
            && forall j :: Count(r.value.layer.counts, j) == Count(layer.counts, j) + multiset(s.value.ids)[j])
    ensures |x.shape| == 3 && layer.softSnap ==>
      && (r.Ok? <==> LastDim(x) == layer.codebook.dim)
      && (r.Err? ==> r.error == RuntimeError)
      && (r.Ok? ==>
            && r.value.layer.counts == layer.counts
            && forall i :: 0 <= i < |x.data| ==>
                 r.value.output.data[i] == SoftSnapVector(x.data[i], layer.codebook, softmax))
  {
    if |x.shape| != 3 then
      Err(AssertionError)
    else if !layer.softSnap then
      var s :- SnapForward(layer.metric, x, layer.codebook);
      Ok(Step(layer.(counts := Tally(layer.counts, s.ids)), s.outputs))
    else if LastDim(x) != layer.codebook.dim then
      Err(RuntimeError)
    else
      var out := seq(|x.data|, i requires 0 <= i < |x.data| => SoftSnapVector(x.data[i], layer.codebook, softmax));
      Ok(Step(layer, RawTensor(x.shape, out)))
  }

  /** Code `i` is underused when the counter has no entry for it or its count is below the threshold. */
  predicate Underused(counts: map<nat, nat>, threshold: int, i: nat)
  {
    i !in counts || counts[i] < threshold
  }

  predicate StrictlyIncreasing(s: seq<nat>)
  {
    forall a, b :: 0 <= a < b < |s| ==> s[a] < s[b]
  }

  /** The underused codes among `i .. n-1`, in ascending order. */
  function UnderusedFrom(counts: map<nat, nat>, threshold: int, i: nat, n: nat): (u: seq<nat>)
    requires i <= n
    ensures StrictlyIncreasing(u)
    ensures forall k :: 0 <= k < |u| ==> i <= u[k] < n
    ensures forall c: nat :: c in u <==> i <= c < n && Underused(counts, threshold, c)
    decreases n - i
  {
    if i == n then []
    else if Underused(counts, threshold, i) then [i] + UnderusedFrom(counts, threshold, i + 1, n)
    else UnderusedFrom(counts, threshold, i + 1, n)
  }

  /** The codes `expire_codes(threshold)` re-initialises. */
  function UnderusedCodes(layer: CodebookLayer, threshold: int): (u: seq<nat>)
    ensures StrictlyIncreasing(u)
    ensures forall c: nat :: c in u <==> c < |layer.codebook.rows| && Underused(layer.counts, threshold, c)
  {
    UnderusedFrom(layer.counts, threshold, 0, |layer.codebook.rows|)
  }

  /** `rows[at] = newRows`: overwrites row `at[k]` with `newRows[k]`. */
  function WriteRows(rows: seq<Vector>, at: seq<nat>, newRows: seq<Vector>): (r: seq<Vector>)
    requires |at| == |newRows|
    requires StrictlyIncreasing(at)
    requires forall k :: 0 <= k < |at| ==> at[k] < |rows|
    ensures |r| == |rows|
    ensures forall i :: 0 <= i < |rows| && i !in at ==> r[i] == rows[i]
    ensures forall k :: 0 <= k < |at| ==> r[at[k]] == newRows[k]
    decreases |at|
  {
    if |at| == 0 then rows
    else
      var r := WriteRows(rows[at[0] := newRows[0]], at[1..], newRows[1..]);
      assert at[0] !in at[1..];
      assert forall k :: 0 < k < |at| ==> at[k] == at[1..][k - 1];
      r
  }

  /** One combination of the codebook rows per weight row. */
  function CombineEach(weights: seq<seq<real>>, cb: Matrix): (codes: seq<Vector>)
    requires forall u :: 0 <= u < |weights| ==> |weights[u]| == |cb.rows|
    ensures |codes| == |weights|
    ensures forall u :: 0 <= u < |weights| ==> |codes[u]| == cb.dim
    ensures forall u :: 0 <= u < |weights| ==> codes[u] == Combine(weights[u], cb.rows, cb.dim)
  {
    seq(|weights|, u requires 0 <= u < |weights| => Combine(weights[u], cb.rows, cb.dim))
  }

  /** `CodebookLayer.expire_codes(threshold)`. `weights` stands for the random
      matrix the source draws and normalises: one row of code weights per
      underused code, in ascending code order. Every underused row becomes the
      combination of the codebook as it was before the call; the counts are kept. */
  function ExpireCodes(layer: CodebookLayer, threshold: int, weights: seq<seq<real>>): (r: CodebookLayer)
    requires |weights| == |UnderusedCodes(layer, threshold)|
    requires forall u :: 0 <= u < |weights| ==> |weights[u]| == |layer.codebook.rows|
    ensures r.counts == layer.counts && r.softSnap == layer.softSnap && r.metric == layer.metric
    ensures r.codebook.dim == layer.codebook.dim
    ensures |r.codebook.rows| == |layer.codebook.rows|
    ensures forall i :: 0 <= i < |layer.codebook.rows| && !Underused(layer.counts, threshold, i) ==>
      r.codebook.rows[i] == layer.codebook.rows[i]
    ensures forall u :: 0 <= u < |weights| ==>
      r.codebook.rows[UnderusedCodes(layer, threshold)[u]]
        == Combine(weights[u], layer.codebook.rows, layer.codebook.dim)
  {
    var cb := layer.codebook;
    var under := UnderusedCodes(layer, threshold);
    var newCodes := CombineEach(weights, cb);
    var rows := WriteRows(cb.rows, under, newCodes);
    assert forall i :: 0 <= i < |rows| && i !in under ==> |rows[i]| == cb.dim;
    assert forall i :: 0 <= i < |rows| && i in under ==> |rows[i]| == cb.dim by {
      forall i | 0 <= i < |rows| && i in under
        ensures |rows[i]| == cb.dim
      {
        var k :| 0 <= k < |under| && under[k] == i;
      }
    }
    layer.(codebook := RawMatrix(cb.dim, rows))
  }

  /** With no underused code, expiry leaves the layer as it was. */
  lemma ExpireWithoutUnderusedIsNoOp(layer: CodebookLayer, threshold: int)
    requires |UnderusedCodes(layer, threshold)| == 0
    ensures ExpireCodes(layer, threshold, []) == layer
  {
    var r := ExpireCodes(layer, threshold, []);
    forall i | 0 <= i < |layer.codebook.rows|
      ensures r.codebook.rows[i] == layer.codebook.rows[i]
    {
      assert i !in UnderusedCodes(layer, threshold);
    }
    assert r.codebook.rows == layer.codebook.rows;
  }

  /** With convex weights, every re-initialised row stays within the per-coordinate
      range of the old codebook. */
  lemma ExpiredRowsStayInRange(layer: CodebookLayer, threshold: int, weights: seq<seq<real>>, k: nat, lo: real, hi: real)
    requires |weights| == |UnderusedCodes(layer, threshold)|
    requires forall u :: 0 <= u < |weights| ==> |weights[u]| == |layer.codebook.rows|
    requires forall u :: 0 <= u < |weights| ==> IsConvexWeights(weights[u])
    requires k < layer.codebook.dim
    requires forall c :: 0 <= c < |layer.codebook.rows| ==> lo <= layer.codebook.rows[c][k] <= hi
    ensures forall i :: 0 <= i < |layer.codebook.rows| ==>
      lo <= ExpireCodes(layer, threshold, weights).codebook.rows[i][k] <= hi
  {
    var r := ExpireCodes(layer, threshold, weights);
    var under := UnderusedCodes(layer, threshold);
    forall i | 0 <= i < |layer.codebook.rows|
      ensures lo <= r.codebook.rows[i][k] <= hi
    {
      if Underused(layer.counts, threshold, i) {
        assert i in under;
        var u :| 0 <= u < |under| && under[u] == i;
        ConvexCombinationWithinRange(weights[u], layer.codebook.rows, layer.codebook.dim, k, lo, hi);
      }
    }
  }
}
