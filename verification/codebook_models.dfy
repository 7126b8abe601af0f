/** `CodebookModel` of `codebook_features/models.py`: the bookkeeping that
    chooses which backbone layers get a codebook, wraps them, collects the
    parameter groups and switches snapping on and off. */
module CodebookModels {
  import opened Errors
  import opened Tensors
  import opened SnapFunctions
  import opened CodebookLayers
  import opened LayerWrappers

  /** The backbone as the model sees it: its layer list (one handle per
      transformer layer) and its hidden size. `num_layers()` is the list's length. */
  datatype Backbone = Backbone(layers: seq<nat>, hidden: nat)

  /** One entry of the backbone's layer list, before or after wrapping. */
  datatype Slot = Plain(layer: nat) | Wrapped(layer: nat, wrapper: Wrapper)

  /** `codebookParams` lists, in collection order, the layer position whose
      codebook weight was collected; `modelParams` lists, per backbone layer, the
      handle of the layer whose parameters form that group. */
  datatype CodebookModel = CodebookModel(
    numCodes: nat,
    hidden: nat,
    layersToSnap: seq<int>,
    metric: Metric,
    slots: seq<Slot>,
    codebookParams: seq<nat>,
    modelParams: seq<nat>)

  /** The `similarity_metric` switch of the constructor. */
  function ParseMetric(name: string): (r: Result<Metric>)
    ensures r == Ok(Euclidean) <==> name == "euclidean"
    ensures r == Ok(InnerProduct) <==> name == "inner_product"
    ensures r.Err? <==> name != "euclidean" && name != "inner_product"
    ensures r.Err? ==> r.error == ValueError
  {
    if name == "euclidean" then Ok(Euclidean)
    else if name == "inner_product" then Ok(InnerProduct)
    else Err(ValueError)
  }

  /** A negative layer index counts from the end. */
  function NormalizeIndex(numLayers: nat, x: int): int
  {
    if x < 0 then x + numLayers else x
  }

  function NormalizeAll(numLayers: nat, layers: seq<int>): (r: seq<int>)
    ensures |r| == |layers|
    ensures forall i :: 0 <= i < |layers| ==> r[i] == NormalizeIndex(numLayers, layers[i])
  {
    seq(|layers|, i requires 0 <= i < |layers| => NormalizeIndex(numLayers, layers[i]))
  }

  /** The constructor's loop from iteration `i` on. Its assertion tests the loop
      counter `i`, not the element, so it fails exactly when the list has more
      entries than the backbone has layers, whatever the entries are. */
  function NormalizeFrom(numLayers: nat, layers: seq<int>, i: nat): (r: Result<seq<int>>)
    requires i <= |layers|
    ensures r.Err? <==> i < |layers| && |layers| > numLayers
    ensures r.Err? ==> r.error == AssertionError
    ensures r.Ok? ==> |r.value| == |layers|
    ensures r.Ok? ==> forall j :: 0 <= j < i ==> r.value[j] == layers[j]
    ensures r.Ok? ==> forall j :: i <= j < |layers| ==> r.value[j] == NormalizeIndex(numLayers, layers[j])
    decreases |layers| - i
  {
    if i == |layers| then Ok(layers)
    else if !(-(numLayers as int) <= i < numLayers) then Err(AssertionError)
    else NormalizeFrom(numLayers, layers[i := NormalizeIndex(numLayers, layers[i])], i + 1)
  }

  predicate Sorted(s: seq<int>)
  {
    forall a, b :: 0 <= a < b < |s| ==> s[a] <= s[b]
  }

  function Insert(x: int, s: seq<int>): (r: seq<int>)
    requires Sorted(s)
    ensures Sorted(r)
    ensures multiset(r) == multiset(s) + multiset{x}
    ensures |r| == |s| + 1 && (r[0] == x || (|s| > 0 && r[0] == s[0]))
  {
    if |s| == 0 then [x]
    else if x <= s[0] then [x] + s
    else
      var t := Insert(x, s[1..]);
      assert s == [s[0]] + s[1..];
      assert s[0] <= t[0] by {
        if |s| > 1 {
          assert s[0] <= s[1];
        }
      }
      [s[0]] + t
  }

  /** `sorted(...)` on a list of integers. */
  function SortInts(s: seq<int>): (r: seq<int>)
    ensures Sorted(r)
    ensures multiset(r) == multiset(s)
  {
    if |s| == 0 then []
    else
      assert s == [s[0]] + s[1..];
      Insert(s[0], SortInts(s[1..]))
  }

  /** Lines 315-321: normalise negative indices, then sort; duplicates and
      out-of-range values are kept. */
  function NormalizeLayers(numLayers: nat, layers: seq<int>): (r: Result<seq<int>>)
    ensures r.Err? <==> |layers| > numLayers
    ensures r.Err? ==> r.error == AssertionError
    ensures r.Ok? ==> Sorted(r.value)
    ensures r.Ok? ==> multiset(r.value) == multiset(NormalizeAll(numLayers, layers))
    ensures r.Ok? ==> |r.value| == |layers|
  {
    var normalized :- NormalizeFrom(numLayers, layers, 0);
    assert normalized == NormalizeAll(numLayers, layers);
    var sorted := SortInts(normalized);
    assert |sorted| == |multiset(sorted)| == |multiset(normalized)| == |normalized|;
    Ok(sorted)
  }

  /** `CodebookModel.__init__`: the index handling, then the metric check; no
      codebook is attached yet. */
  function Init(backbone: Backbone, numCodes: nat, layersToSnap: seq<int>, metricName: string): (r: Result<CodebookModel>)
    ensures |layersToSnap| > |backbone.layers| ==> r == Err(AssertionError)
    ensures |layersToSnap| <= |backbone.layers| ==>
      && (r.Err? <==> ParseMetric(metricName).Err?)
      && (r.Err? ==> r.error == ValueError)
    ensures r.Ok? ==>
      && r.value.metric == ParseMetric(metricName).value
      && r.value.layersToSnap == NormalizeLayers(|backbone.layers|, layersToSnap).value
      && |r.value.slots| == |backbone.layers|
      && (forall i :: 0 <= i < |backbone.layers| ==> r.value.slots[i] == Plain(backbone.layers[i]))
      && r.value.codebookParams == [] && r.value.modelParams == []
      && r.value.numCodes == numCodes && r.value.hidden == backbone.hidden
  {
    var layers :- NormalizeLayers(|backbone.layers|, layersToSnap);
    var metric :- ParseMetric(metricName);
    var slots := seq(|backbone.layers|, i requires 0 <= i < |backbone.layers| => Plain(backbone.layers[i]));
    Ok(CodebookModel(numCodes, backbone.hidden, layers, metric, slots, [], []))
  }

  /** The random initial weights of the codebooks: entry (row, column) of the
      codebook installed at position `i` is `draw(i, row, column)`. */
  type Draw = (nat, nat, nat) -> real

  /** The codebook `nn.Embedding(num_codes, hidden_size)` starts with at position `i`. */
  function InitialCodebook(numCodes: nat, hidden: nat, draw: Draw, i: nat): (cb: Matrix)
    ensures cb.dim == hidden && |cb.rows| == numCodes
    ensures forall r, c :: 0 <= r < numCodes && 0 <= c < hidden ==> cb.rows[r][c] == draw(i, r, c)
  {
    RawMatrix(hidden, seq(numCodes, r requires 0 <= r < numCodes =>
      seq(hidden, c requires 0 <= c < hidden => draw(i, r, c))))
  }

  /** The wrapper `add_codebooks` installs at position `i`: a fresh hard-mode
      codebook layer of `num_codes` rows of width `hidden_size`, with the model's
      metric, an empty counter, snapping on. */
  function NewWrapper(m: CodebookModel, init: Draw, i: nat): (w: Wrapper)
    ensures w.snap && !w.codebookLayer.softSnap && w.codebookLayer.counts == map[]
    ensures w.codebookLayer.metric == m.metric
    ensures w.codebookLayer.codebook.dim == m.hidden && |w.codebookLayer.codebook.rows| == m.numCodes
  {
    Wrapper(CodebookLayer(InitialCodebook(m.numCodes, m.hidden, init, i), map[], false, m.metric), true)
  }

  predicate AllPlain(slots: seq<Slot>)
  {
    forall i :: 0 <= i < |slots| ==> slots[i].Plain?
  }

  predicate StrictlyIncreasingInts(s: seq<nat>)
  {
    forall a, b :: 0 <= a < b < |s| ==> s[a] < s[b]
  }

  /** The positions `i .. n-1` that occur in `layersToSnap`, ascending: the order
      in which `add_codebooks` collects codebook parameters. */
  function SnapPositionsFrom(layersToSnap: seq<int>, i: nat, n: nat): (r: seq<nat>)
    requires i <= n
    ensures StrictlyIncreasingInts(r)
    ensures forall k :: 0 <= k < |r| ==> i <= r[k] < n
    ensures forall c: nat :: c in r <==> i <= c < n && c in layersToSnap
    decreases n - i
  {
    if i == n then []
    else if i in layersToSnap then [i] + SnapPositionsFrom(layersToSnap, i + 1, n)
    else SnapPositionsFrom(layersToSnap, i + 1, n)
  }

  /** `add_codebooks`. Its loop visits every position once: it appends that
      layer's parameters to `model_params`, and when the position occurs in
      `layers_to_snap` it wraps the layer and collects the codebook weight. */
  function AddCodebooks(m: CodebookModel, init: Draw): (r: CodebookModel)
    requires AllPlain(m.slots)
    ensures r.(slots := m.slots, codebookParams := m.codebookParams, modelParams := m.modelParams) == m
    ensures |r.slots| == |m.slots|
    ensures forall k :: 0 <= k < |m.slots| ==> r.slots[k].layer == m.slots[k].layer
    ensures forall k :: 0 <= k < |m.slots| ==> (r.slots[k].Wrapped? <==> k in m.layersToSnap)
    ensures forall k :: 0 <= k < |m.slots| && k in m.layersToSnap ==> r.slots[k].wrapper == NewWrapper(m, init, k)
    ensures |r.modelParams| == |m.modelParams| + |m.slots|
    ensures r.modelParams[..|m.modelParams|] == m.modelParams
    ensures forall k :: 0 <= k < |m.slots| ==> r.modelParams[|m.modelParams| + k] == m.slots[k].layer
    ensures |r.codebookParams| >= |m.codebookParams|
    ensures r.codebookParams[..|m.codebookParams|] == m.codebookParams
    ensures StrictlyIncreasingInts(r.codebookParams[|m.codebookParams|..])
    ensures forall c: nat :: c in r.codebookParams[|m.codebookParams|..] <==> c < |m.slots| && c in m.layersToSnap
  {
    var n := |m.slots|;
    var slots := seq(n, k requires 0 <= k < n =>
      if k in m.layersToSnap then Wrapped(m.slots[k].layer, NewWrapper(m, init, k)) else m.slots[k]);
    var layers := seq(n, k requires 0 <= k < n => m.slots[k].layer);
    var positions := SnapPositionsFrom(m.layersToSnap, 0, n);
    assert (m.codebookParams + positions)[|m.codebookParams|..] == positions;
    m.(slots := slots, codebookParams := m.codebookParams + positions, modelParams := m.modelParams + layers)
  }

  /** `all_codebooks`: the codebook layer of every wrapped position, keyed by position. */
  function AllCodebooks(m: CodebookModel): (r: map<nat, CodebookLayer>)
    ensures forall i: nat :: i in r <==> i < |m.slots| && m.slots[i].Wrapped?
  {
    map i: nat | i < |m.slots| && m.slots[i].Wrapped? :: m.slots[i].wrapper.codebookLayer
  }

  /** The in-range positions listed in `layers_to_snap`. */
  function SnapPositions(m: CodebookModel): set<nat>
  {
    set i: nat | i < |m.slots| && i in m.layersToSnap
  }

  /** A model whose wrapped positions are exactly the in-range entries of `layers_to_snap`. */
  predicate WrappedAsConfigured(m: CodebookModel)
  {
    forall i :: 0 <= i < |m.slots| ==> (m.slots[i].Wrapped? <==> i in m.layersToSnap)
  }

  /** A `BertCodebookModel` / `GPT2CodebookModel` constructor: `__init__` followed by `add_codebooks`. */
  function Build(backbone: Backbone, numCodes: nat, layersToSnap: seq<int>, metricName: string, init: Draw): (r: Result<CodebookModel>)
    ensures r.Err? <==> |layersToSnap| > |backbone.layers| || ParseMetric(metricName).Err?
    ensures r.Ok? ==>
      && r.value.layersToSnap == NormalizeLayers(|backbone.layers|, layersToSnap).value
      && r.value.metric == ParseMetric(metricName).value
      && WrappedAsConfigured(r.value)
      && |r.value.slots| == |backbone.layers|
      && (forall i :: 0 <= i < |backbone.layers| ==> r.value.slots[i].layer == backbone.layers[i])
      && r.value.modelParams == backbone.layers
      && AllCodebooks(r.value).Keys == SnapPositions(r.value)
      && (forall c: nat :: c in r.value.codebookParams <==> c in AllCodebooks(r.value))
    ensures r.Ok? ==> forall i :: i in AllCodebooks(r.value) ==>
      && AllCodebooks(r.value)[i].codebook.dim == backbone.hidden
      && |AllCodebooks(r.value)[i].codebook.rows| == numCodes
      && AllCodebooks(r.value)[i].counts == map[]
  {
    var mi := Init(backbone, numCodes, layersToSnap, metricName);
    if mi.Err? then Err(mi.error)
    else
      BuildShape(backbone, numCodes, layersToSnap, metricName, init);
      BuildRegistry(backbone, numCodes, layersToSnap, metricName, init);
      BuildCodebooks(backbone, numCodes, layersToSnap, metricName, init);
      Ok(AddCodebooks(mi.value, init))
  }

  lemma BuildShape(backbone: Backbone, numCodes: nat, layersToSnap: seq<int>, metricName: string, init: Draw)
    requires Init(backbone, numCodes, layersToSnap, metricName).Ok?
    ensures var m := Init(backbone, numCodes, layersToSnap, metricName).value;
      var r := AddCodebooks(m, init);
      && r.layersToSnap == NormalizeLayers(|backbone.layers|, layersToSnap).value
      && r.metric == ParseMetric(metricName).value
      && |r.slots| == |backbone.layers|
      && (forall i :: 0 <= i < |backbone.layers| ==> r.slots[i].layer == backbone.layers[i])
      && r.modelParams == backbone.layers
  {
    var m := Init(backbone, numCodes, layersToSnap, metricName).value;
    var r := AddCodebooks(m, init);
    assert r.layersToSnap == m.layersToSnap && r.metric == m.metric;
    assert r.modelParams == backbone.layers;
  }

  lemma BuildRegistry(backbone: Backbone, numCodes: nat, layersToSnap: seq<int>, metricName: string, init: Draw)
    requires Init(backbone, numCodes, layersToSnap, metricName).Ok?
    ensures var m := Init(backbone, numCodes, layersToSnap, metricName).value;
      var r := AddCodebooks(m, init);
      && WrappedAsConfigured(r)
      && AllCodebooks(r).Keys == SnapPositions(r)
      && (forall c: nat :: c in r.codebookParams <==> c in AllCodebooks(r))
  {
    var m := Init(backbone, numCodes, layersToSnap, metricName).value;
    RegistryOfAddCodebooks(m, init);
  }

  lemma BuildCodebooks(backbone: Backbone, numCodes: nat, layersToSnap: seq<int>, metricName: string, init: Draw)
    requires Init(backbone, numCodes, layersToSnap, metricName).Ok?
    ensures var r := AddCodebooks(Init(backbone, numCodes, layersToSnap, metricName).value, init);
      forall i :: i in AllCodebooks(r) ==>
        && AllCodebooks(r)[i].codebook.dim == backbone.hidden
        && |AllCodebooks(r)[i].codebook.rows| == numCodes
        && AllCodebooks(r)[i].counts == map[]
  {
    var m := Init(backbone, numCodes, layersToSnap, metricName).value;
    var r := AddCodebooks(m, init);
    forall i | i in AllCodebooks(r)
      ensures AllCodebooks(r)[i] == NewWrapper(m, init, i).codebookLayer
    {
      assert r.slots[i].Wrapped? && i in m.layersToSnap;
    }
  }

  lemma RegistryOfAddCodebooks(m: CodebookModel, init: Draw)
    requires AllPlain(m.slots) && m.codebookParams == []
    ensures WrappedAsConfigured(AddCodebooks(m, init))
    ensures AllCodebooks(AddCodebooks(m, init)).Keys == SnapPositions(AddCodebooks(m, init))
    ensures forall c: nat :: c in AddCodebooks(m, init).codebookParams <==> c in AllCodebooks(AddCodebooks(m, init))
  {
    var r := AddCodebooks(m, init);
    assert r.codebookParams[|m.codebookParams|..] == r.codebookParams;
    assert r.layersToSnap == m.layersToSnap;
    forall i: nat
      ensures i in AllCodebooks(r).Keys <==> i in SnapPositions(r)
    {
    }
  }

  /** `enable_codebooks` (`on`) and `disable_codebooks` (not `on`): set `snap` on
      the wrapped layers whose position is in `layers_to_snap`. */
  function SetSnap(m: CodebookModel, on: bool): (r: CodebookModel)
    ensures r.(slots := m.slots) == m
    ensures |r.slots| == |m.slots|
    ensures forall i :: 0 <= i < |m.slots| ==>
      && r.slots[i].layer == m.slots[i].layer
      && r.slots[i].Wrapped? == m.slots[i].Wrapped?
      && (m.slots[i].Wrapped? ==>
            && r.slots[i].wrapper.codebookLayer == m.slots[i].wrapper.codebookLayer
            && r.slots[i].wrapper.snap == (if i in m.layersToSnap then on else m.slots[i].wrapper.snap))
  {
    var slots := seq(|m.slots|, i requires 0 <= i < |m.slots| =>
      if i in m.layersToSnap && m.slots[i].Wrapped? then
        Wrapped(m.slots[i].layer, m.slots[i].wrapper.(snap := on))
      else m.slots[i]);
    m.(slots := slots)
  }

  function EnableCodebooks(m: CodebookModel): (r: CodebookModel)
    requires WrappedAsConfigured(m)
    ensures WrappedAsConfigured(r)
    ensures forall i :: 0 <= i < |r.slots| && r.slots[i].Wrapped? ==> r.slots[i].wrapper.snap
  {
    SetSnap(m, true)
  }

  function DisableCodebooks(m: CodebookModel): (r: CodebookModel)
    requires WrappedAsConfigured(m)
    ensures WrappedAsConfigured(r)
    ensures forall i :: 0 <= i < |r.slots| && r.slots[i].Wrapped? ==> !r.slots[i].wrapper.snap
  {
    SetSnap(m, false)
  }

  /** Toggling snapping touches no codebook layer: the registry is unchanged. */
  lemma SetSnapKeepsCodebooks(m: CodebookModel, on: bool)
    ensures AllCodebooks(SetSnap(m, on)) == AllCodebooks(m)
  {
    var r := SetSnap(m, on);
    assert AllCodebooks(r).Keys == AllCodebooks(m).Keys;
  }

  /** After `disable_codebooks` every wrapped layer passes its layer's output
      through unchanged. */
  lemma DisabledModelPassesThrough(m: CodebookModel, i: nat, outputs: seq<Value>, softmax: seq<real> -> seq<real>)
    requires WrappedAsConfigured(m)
    requires forall s :: |softmax(s)| == |s|
    requires i < |m.slots| && m.slots[i].Wrapped?
    ensures var w := DisableCodebooks(m).slots[i].wrapper;
            WrapperForward(w, outputs, softmax) == Ok(WrapperStep(w, outputs))
  {
  }

  /** `[-1, -2]` on six layers selects layers 4 and 5. */
  lemma NegativeIndicesExample()
    ensures NormalizeLayers(6, [-1, -2]) == Ok([4, 5])
  {
    var r := NormalizeFrom(6, [-1, -2], 0);
    assert r.value[0] == 5 && r.value[1] == 4;
    assert r.value == [5, 4];
    assert Insert(4, []) == [4];
    assert Insert(5, [4]) == [4, 5];
    assert SortInts([5, 4]) == [4, 5];
  }

  /** Duplicates survive: `[5, -1]` on six layers gives `[5, 5]`. */
  lemma DuplicatesKeptExample()
    ensures NormalizeLayers(6, [5, -1]) == Ok([5, 5])
  {
    var r := NormalizeFrom(6, [5, -1], 0);
    assert r.value[0] == 5 && r.value[1] == 5;
    assert r.value == [5, 5];
    assert Insert(5, []) == [5];
    assert Insert(5, [5]) == [5, 5];
    assert SortInts([5, 5]) == [5, 5];
  }

  /** Out-of-range entries pass the assertion: `[9, -8]` on six layers gives `[-2, 9]`,
      while two valid entries on a one-layer backbone fail it. */
  lemma RangeCheckTestsCounterExample()
    ensures NormalizeLayers(6, [9, -8]) == Ok([-2, 9])
    ensures NormalizeLayers(1, [0, 0]) == Err(AssertionError)
  {
    var r := NormalizeFrom(6, [9, -8], 0);
    assert r.value[0] == 9 && r.value[1] == -2;
    assert r.value == [9, -2];
    assert Insert(-2, []) == [-2];
    assert Insert(9, [-2]) == [-2, 9];
    assert SortInts([9, -2]) == [-2, 9];
  }

  /** Four layers, snapping `[0, -1]` with the Euclidean metric: codebooks at
      positions 0 and 3 only. */
  lemma FourLayerExample(backbone: Backbone, layersToSnap: seq<int>, init: Draw)
    requires backbone.layers == [10, 11, 12, 13] && layersToSnap == [0, -1]
    ensures Build(backbone, 16, layersToSnap, "euclidean", init).Ok?
    ensures AllCodebooks(Build(backbone, 16, layersToSnap, "euclidean", init).value).Keys == {0, 3}
  {
    FirstAndLastOfFour(layersToSnap);
    var b := Build(backbone, 16, layersToSnap, "euclidean", init);
    assert ParseMetric("euclidean") == Ok(Euclidean);
    assert b.Ok?;
    var r := b.value;
    assert |r.slots| == 4 && r.layersToSnap == [0, 3];
    KeysOfTwoLayerSelection(r, 4);
  }

  lemma FirstAndLastOfFour(layersToSnap: seq<int>)
    requires layersToSnap == [0, -1]
    ensures NormalizeLayers(4, layersToSnap) == Ok([0, 3])
  {
    var n := NormalizeFrom(4, layersToSnap, 0);
    assert n.value[0] == 0 && n.value[1] == 3;
    assert n.value == [0, 3];
    assert Insert(3, []) == [3];
    assert Insert(0, [3]) == [0, 3];
    assert SortInts([0, 3]) == [0, 3];
  }

  lemma KeysOfTwoLayerSelection(r: CodebookModel, n: nat)
    requires |r.slots| == n == 4 && r.layersToSnap == [0, 3]
    requires WrappedAsConfigured(r)
    ensures AllCodebooks(r).Keys == {0, 3}
  {
    forall i: nat
      ensures i in AllCodebooks(r).Keys <==> i == 0 || i == 3
    {
      assert i in r.layersToSnap <==> i == 0 || i == 3;
    }
  }
}
