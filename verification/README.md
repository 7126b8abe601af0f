# Codebook features: a Dafny model

Codebook features put a discrete bottleneck into a transformer. After each
chosen layer, every activation vector is replaced ("snapped") by one row of a
learned codebook:

- the row with the largest inner product, or
- the row at the smallest Euclidean distance.

Training passes gradients straight through the snap. Each codebook row is
trained by the output gradients at the positions that picked it.

This project models three pieces of the repository.

1. **The bottleneck (`codebook_features/models.py`).**
   - The two snap functions and their backward rule.
   - `CodebookLayer`: the forward pass with usage counters, and the expiry of
     underused codes.
   - `TransformerLayerWrapper`.
   - The `CodebookModel` bookkeeping: negative layer indices, sorting, the
     metric switch, wrapping the chosen layers, the codebook registry, and
     enabling/disabling.
2. **`ToyGraph` (`codebook_features/train_toy_model.py`).** The toy
   automaton's transition checks and counts, and the fixed-width decimal text
   format of its trajectories.
3. **Name parsing (`codebook_features/toy_utils.py`).** Hook keys and
   patching names.

## How the model is built

- Vectors are `seq<real>` with exact arithmetic.
- A tensor is a shape plus the list of its last-axis vectors (`Tensors`).
- Python exceptions become `Errors.Result` values named after the exception
  class (`AssertionError`, `ValueError`, `IndexError`, `AttributeError`,
  `RuntimeError`, `ZeroDivisionError`, `NameError`).
- Things outside the core become parameters:
  - the softmax of soft mode;
  - the random weights of `expire_codes`;
  - the initial codebook weights;
  - the `digits` width of `ToyGraph`.
- A transition matrix is reduced to which of its entries are nonzero.

Each module follows one class or file:

| module | covers |
|---|---|
| `SnapFunctions` | snap functions and the straight-through gradient |
| `CodebookLayers` | `CodebookLayer` |
| `LayerWrappers` | `TransformerLayerWrapper` |
| `CodebookModels` | `CodebookModel` |
| `ToyGraphs` | `ToyGraph` |
| `ToyUtils` | the toy name helpers |
| `Decimal`, `Strings` | Python's `str`/`int` conversions and the `split`/`join`/`replace` methods the code uses |

## Where the code and its documentation part ways

The model follows the code in each case.

- **Layer-index assertion (`codebook_features/models.py:317-318`).** The
  assertion tests the loop counter `i`, not the entry `layers_to_snap[i]`. So
  it fails exactly when more entries are given than the backbone has layers.
  Out-of-range entries such as `9` or `-8` (with 6 layers) pass unchecked.
  `RangeCheckTestsCounterExample` shows both halves.
- **Duplicates (line 321).** Duplicate entries are kept; the list is only
  sorted (`DuplicatesKeptExample`).
- **Counts after expiry (lines 228-250).** `expire_codes` does not reset the
  counts of the codes it rewrites, so they stay underused until counted again.
- **Nothing to expire (lines 244-250).** With no underused code,
  `torch.tensor([])` is a float tensor, so indexing with it raises
  `IndexError`, which is swallowed. The call changes nothing.
- **`transition_accuracy` (`codebook_features/train_toy_model.py:170-189`):**
  - it adds `len(traj) - 1` for every trajectory, so an empty trajectory
    subtracts one from the total;
  - the final guard looks only at the last trajectory;
  - an empty list leaves the loop variable unbound, so reading it raises
    `UnboundLocalError`, the subclass of `NameError` the model reports as `NameError`.

  Hence `[[], [0, 1]]` divides by zero (`EmptyTrajectoryDividesByZero`), and
  `[[0, 1], [0]]` reports `(0, 0)` although its one transition is correct
  (`LastTrajectoryDecides`). The bounds `correct <= total` and
  `0 <= accuracy <= 1` therefore hold only without empty trajectories.

## Model

| member | source | states |
|---|---|---|
| SnapFunctions.ArgMaxFrom | codebook_features/models.py:125 | scanning the rest of the scores from a first-maximum of a prefix yields the first maximum of all scores |
| SnapFunctions.ArgMax | codebook_features/models.py:125 | `argmax(-1)` returns an index holding the largest score, and no earlier index holds as large a one |
| SnapFunctions.ArgMin | codebook_features/models.py:154 | `argmin(-1)` returns an index holding the smallest score, and no earlier index holds as small a one |
| SnapFunctions.FirstMinUnique | codebook_features/models.py:154 | the first minimum is unique, so any two argmin results agree |
| SnapFunctions.ArgMinUnderIncreasingMap | codebook_features/models.py:153-154 | a strictly increasing map of non-negative scores leaves the argmin unchanged |
| SnapFunctions.DotScores | codebook_features/models.py:124 | `inputs @ codebook.T` for one position: one logit per code, the dot product with that row |
| SnapFunctions.DistScores | codebook_features/models.py:153 | one score per code, the squared distance to that row (the square of what `cdist` reports) |
| SnapFunctions.EuclideanChoiceMatchesDistance | codebook_features/models.py:153-154 | the argmin over `cdist` distances (any increasing square root of the squared distance) is the argmin over squared distances |
| SnapFunctions.SelectCode | codebook_features/models.py:124-125 | for one vector: the row with the largest dot product (inner product) or the smallest distance (Euclidean), lowest index on ties |
| SnapFunctions.Embedding | codebook_features/models.py:128 | `embedding(ids, codebook)` has one output per id, equal to the codebook row at that id |
| SnapFunctions.SnapForward | codebook_features/models.py:107-162 | `cdist` on an input of fewer than two axes and a hidden-size mismatch are `RuntimeError`; an empty codebook is `IndexError`; otherwise the output has the input's shape, one in-range id per position, each id a best choice under the metric, and each output vector the chosen row |
| SnapFunctions.ScatterAdd | codebook_features/models.py:101 | accumulating the output gradients into the codebook gradient keeps its number of rows and their width |
| SnapFunctions.ScatterAddIsSelectedSum | codebook_features/models.py:102 | accumulating each position's gradient into the row it picked adds to row j the sum over exactly the positions with id j |
| SnapFunctions.Backward | codebook_features/models.py:101-104 | the input gradient is the output gradient unchanged; codebook row j's gradient is the sum of the output gradients at the positions whose id is j |
| SnapFunctions.UnselectedRowGetsZero | codebook_features/models.py:102 | a row that no position picked gets a zero gradient |
| SnapFunctions.PairingPerturbed | codebook_features/models.py:102 | moving row j by delta changes the loss-pairing of the output with the upstream gradient by the pairing of delta with the gradients at positions choosing j |
| SnapFunctions.CodebookGradientIsExact | codebook_features/models.py:101-104 | the codebook gradient `Backward` returns is the derivative of the output's pairing with the upstream gradient: moving row j by delta changes it by exactly `Dot(grad_j, delta)` |
| CodebookLayers.Tally | codebook_features/models.py:211 | `Counter.update` adds to each code's count the number of its occurrences among the ids, and creates keys for exactly the new ids |
| CodebookLayers.TallyAccumulates | codebook_features/models.py:211 | counting two batches one after the other equals counting them together: counts accumulate and are never overwritten |
| CodebookLayers.SoftSnapVector | codebook_features/models.py:217-224 | a soft snap yields a vector of the codebook's width |
| CodebookLayers.Forward | codebook_features/models.py:207-225 | a non-rank-3 input is `AssertionError`; hard mode returns the snap function's output, adds one count per position to its chosen id, and the counter's keys become the old keys plus every chosen id (so a code never chosen stays missing, which `expire_codes` reads); soft mode leaves the counts unchanged and fails with `RuntimeError` exactly on a width mismatch |
| CodebookLayers.UnderusedFrom | codebook_features/models.py:236-238 | the codes from i on that are missing from the counter or counted below the threshold, ascending |
| CodebookLayers.UnderusedCodes | codebook_features/models.py:235-238 | exactly the codes in `[0, num_codes)` missing from the counter or counted below the threshold, ascending |
| CodebookLayers.WriteRows | codebook_features/models.py:248 | indexed assignment rewrites exactly the listed rows, each with its new row, and keeps every other row |
| CodebookLayers.ExpireCodes | codebook_features/models.py:235-250 | rows that are not underused are unchanged; the u-th underused row becomes the u-th weight row's combination of the old codebook; counts, mode and metric are untouched |
| CodebookLayers.ExpireWithoutUnderusedIsNoOp | codebook_features/models.py:244-250 | with no underused code, expiry leaves the layer exactly as it was |
| CodebookLayers.ExpiredRowsStayInRange | codebook_features/models.py:240-243 | with non-negative weights summing to one, every coordinate of every row after expiry stays within the old codebook's range for that coordinate |
| Vectors.Combine | codebook_features/models.py:243 | `einsum("uc,cd->ud")` for one weight row: a vector of the codebook width whose coordinate k is the weights dotted with column k of the codebook |
| Vectors.DotBetween | codebook_features/models.py:243 | a dot product with non-negative weights lies between min·Σw and max·Σw of the other factor |
| Vectors.CombineBetween | codebook_features/models.py:243 | a non-negative combination of rows lies coordinate-wise between min·Σw and max·Σw |
| Vectors.ConvexCombinationWithinRange | codebook_features/models.py:240-243 | a convex combination of rows lies coordinate-wise within the rows' range |
| LayerWrappers.WrapperForward | codebook_features/models.py:284-289 | with snapping off the layer outputs pass unchanged; with it on, element 0 is replaced by the codebook layer's output and elements 1.. are kept; an empty tuple is `IndexError`, and a non-tensor first element is `AttributeError` |
| LayerWrappers.ReplaceFirst | codebook_features/models.py:286-287 | `(snapped_output, *layer_outputs[1:])` has the tuple's length, the new first element, and every later element unchanged |
| CodebookModels.ParseMetric | codebook_features/models.py:326-333 | "euclidean" and "inner_product" select the two snap functions; any other name is `ValueError` |
| CodebookModels.NormalizeAll | codebook_features/models.py:319-320 | every negative index gets `num_layers` added, and all others are kept |
| CodebookModels.NormalizeFrom | codebook_features/models.py:317-320 | the loop fails with `AssertionError` exactly when it runs and the list is longer than the layer count; otherwise it normalises the entries from i on and keeps the earlier ones |
| CodebookModels.Insert | codebook_features/models.py:321 | inserting into a sorted list keeps it sorted and adds exactly that element |
| CodebookModels.SortInts | codebook_features/models.py:321 | `sorted` returns an ascending permutation of its input |
| CodebookModels.NormalizeLayers | codebook_features/models.py:315-321 | `AssertionError` exactly when there are more entries than layers; otherwise an ascending permutation of the normalised entries with duplicates kept |
| CodebookModels.Init | codebook_features/models.py:312-333 | the index check comes first, then the metric check; on success the model keeps the sorted normalised layers and the chosen metric, and starts with no parameters collected |
| CodebookModels.SnapPositionsFrom | codebook_features/models.py:338-340 | the positions from i to n-1 that occur in `layers_to_snap`, ascending |
| CodebookModels.InitialCodebook | codebook_features/models.py:191 | a fresh `nn.Embedding(num_codes, dim)` weight has `num_codes` rows of width `dim`, filled from the random draw |
| CodebookModels.NewWrapper | codebook_features/models.py:341-346 | a newly installed wrapper snaps, runs in hard mode with the model's metric and an empty counter, and holds a `num_codes x hidden_size` codebook |
| CodebookModels.AddCodebooks | codebook_features/models.py:335-350 | one model-parameter group per layer, in order; exactly the positions in `layers_to_snap` are wrapped with a fresh codebook layer; their codebook weights are collected in ascending position order |
| CodebookModels.AllCodebooks | codebook_features/models.py:350 | the registry's keys are exactly the wrapped positions |
| CodebookModels.RegistryOfAddCodebooks | codebook_features/models.py:338-350 | after wrapping, the registry's keys are exactly the layer positions listed in `layers_to_snap`, and the collected codebook parameters belong to exactly those positions |
| CodebookModels.Build | codebook_features/models.py:312-350 | construction fails exactly on too many layer entries or an unknown metric; otherwise the slots keep the backbone's layers in order, the wrapped positions and the codebook registry keys are exactly the in-range entries of `layers_to_snap`, the codebook parameter groups are those of the registry, and every registered codebook is `num_codes x hidden_size` with an empty counter |
| CodebookModels.SetSnap | codebook_features/models.py:352-362 | only the `snap` flag of wrapped layers at positions in `layers_to_snap` changes; every layer and codebook stays |
| CodebookModels.EnableCodebooks | codebook_features/models.py:352-356 | every wrapped layer snaps afterwards |
| CodebookModels.DisableCodebooks | codebook_features/models.py:358-362 | no wrapped layer snaps afterwards |
| CodebookModels.SetSnapKeepsCodebooks | codebook_features/models.py:352-362 | enabling or disabling leaves the codebook registry unchanged |
| CodebookModels.DisabledModelPassesThrough | codebook_features/models.py:285-289 | after `disable_codebooks`, every wrapped layer returns its layer's outputs unchanged |
| CodebookModels.NegativeIndicesExample | codebook_features/models.py:319-321 | with 6 layers, `[-1, -2]` becomes `[4, 5]` |
| CodebookModels.DuplicatesKeptExample | codebook_features/models.py:321 | with 6 layers, `[5, -1]` becomes `[5, 5]`: duplicates survive |
| CodebookModels.RangeCheckTestsCounterExample | codebook_features/models.py:318 | with 6 layers, `[9, -8]` passes as `[-2, 9]`; with 1 layer, `[0, 0]` fails although both entries are in range |
| CodebookModels.FourLayerExample | codebook_features/models.py:315-350 | on four layers with `[0, -1]`, the registry holds positions 0 and 3 |
| ToyGraphs.ResolveIndex | codebook_features/train_toy_model.py:156 | numpy accepts indexes in `[-n, n)` and maps negative ones to the same state counted from the end |
| ToyGraphs.Edge | codebook_features/train_toy_model.py:156 | a transition lookup fails with `IndexError` exactly when a state is out of range |
| ToyGraphs.FirstBad | codebook_features/train_toy_model.py:155-156 | the first pair position whose transition is not allowed (every earlier pair is allowed, that one is not), or the number of pairs when all are |
| ToyGraphs.VerifyTrajectory | codebook_features/train_toy_model.py:153-160 | returns true exactly when every consecutive pair is an allowed transition (so trajectories of length ≤ 1 are valid); otherwise the first disallowed pair decides: false exactly when its matrix entry is zero, `IndexError` exactly when one of its states does not resolve, whatever later pairs hold |
| ToyGraphs.TrueIndices | codebook_features/train_toy_model.py:164 | `np.where(row)[0]` lists exactly the positions of nonzero entries, ascending |
| ToyGraphs.Nbrs | codebook_features/train_toy_model.py:162-164 | t is listed exactly when the transition state→t is nonzero; the list is ascending |
| ToyGraphs.NbrsTo | codebook_features/train_toy_model.py:166-168 | s is listed exactly when the transition s→state is nonzero; the list is ascending |
| ToyGraphs.NbrsDuality | codebook_features/train_toy_model.py:162-168 | t is a neighbour of s exactly when s is a predecessor of t |
| ToyGraphs.CorrectPairs | codebook_features/train_toy_model.py:178-182 | the inner loop counts exactly the positions i whose pair `traj[i], traj[i+1]` is an allowed transition (at most `len - 1`); an out-of-range state in any pair is `IndexError` |
| ToyGraphs.CorrectPairsIffValid | codebook_features/train_toy_model.py:153-160 | every pair of a non-empty trajectory is counted as correct exactly when `verify_trajectory` accepts it |
| ToyGraphs.ValidExtends | codebook_features/train_toy_model.py:153-160 | a trajectory is valid exactly when its prefix is valid and its last step is an edge |
| ToyGraphs.Tally | codebook_features/train_toy_model.py:175-182 | correct = the sum over trajectories of their allowed transitions; first-correct = the number of trajectories whose first transition is allowed; total = pairs − empty trajectories; first-correct ≤ correct ≤ pairs; `IndexError` exactly when some pair is out of range |
| ToyGraphs.TransitionAccuracy | codebook_features/train_toy_model.py:170-189 | an empty list is `NameError` (`UnboundLocalError` on the unbound loop variable); a last trajectory of length ≤ 1 gives `(0, 0)` whatever came before; otherwise `ZeroDivisionError` exactly when the total is zero (which needs an empty trajectory), and else the pair (allowed transitions / total, trajectories with an allowed first transition / number of trajectories) |
| ToyGraphs.AccuracyWithinUnit | codebook_features/train_toy_model.py:183-187 | without empty trajectories both accuracies lie in [0, 1] |
| ToyGraphs.CorrectWithinTotal | codebook_features/train_toy_model.py:175-182 | without empty trajectories the correct transitions never exceed the total |
| ToyGraphs.EmptyTrajectoryDividesByZero | codebook_features/train_toy_model.py:177-185 | `[[], [0, 1]]` is `ZeroDivisionError` |
| ToyGraphs.LastTrajectoryDecides | codebook_features/train_toy_model.py:183-189 | `[[0, 1], [0]]` reports `(0, 0)` |
| ToyGraphs.Pad | codebook_features/train_toy_model.py:206 | a padded state is all digits, as wide as `digits` or its own decimal form, whichever is longer, and reads back as the state |
| ToyGraphs.TrajToStr | codebook_features/train_toy_model.py:204-206 | the encoding is `"".join` of the padded states, made of digits only |
| ToyGraphs.StateAt | codebook_features/train_toy_model.py:204-206 | when the states fit, state k occupies characters `[Offset(k, digits), Offset(k, digits) + digits)` of the encoding, zero-padded, where `Offset(k, d) == k*d` |
| ToyGraphs.TrajToStrLength | codebook_features/train_toy_model.py:204-206 | when every state fits in `digits` characters, the text is `digits * len(traj)` long |
| ToyGraphs.Chunks | codebook_features/train_toy_model.py:199-200 | the loop visits ⌊len/digits⌋ complete slices, each exactly `digits` long; a shorter tail is skipped |
| ToyGraphs.ChunkAt | codebook_features/train_toy_model.py:199-200 | slice k is the characters `[Offset(k, digits), Offset(k, digits) + digits)` of the text, where `Offset(k, d) == k*d` |
| ToyGraphs.AsList | codebook_features/train_toy_model.py:193-194 | a single string is treated as a list of one |
| ToyGraphs.TextToTraj | codebook_features/train_toy_model.py:197-201 | the markers are removed before slicing; it succeeds exactly when `digits ≥ 1` and every complete slice is an integer literal; state k is `int` of slice k; one state per complete slice; `digits == 0` is `ValueError` from `range` |
| ToyGraphs.SeqToTraj | codebook_features/train_toy_model.py:191-202 | one trajectory per input text, in order; it succeeds exactly when every text parses |
| ToyGraphs.ParseAll | codebook_features/train_toy_model.py:196-201 | the loop over texts keeps their number and order |
| ToyGraphs.NoMarkerInDigits | codebook_features/train_toy_model.py:197 | removing `<\|endoftext\|>` leaves digit text unchanged |
| ToyGraphs.ChunksOfTrajToStr | codebook_features/train_toy_model.py:199-206 | slicing the encoding of a trajectory whose states fit recovers the padded states one by one |
| ToyGraphs.FirstPadded | codebook_features/train_toy_model.py:204-206 | the first `digits` characters of the encoding are the first padded state and the rest is the encoding of the tail |
| ToyGraphs.ParsePadded | codebook_features/train_toy_model.py:201-206 | `int` of each zero-padded state gives the trajectory back |
| ToyGraphs.TrajToStrConcat | codebook_features/train_toy_model.py:204-206 | the encoding of a concatenation is the concatenation of the encodings |
| ToyGraphs.MarkerJoinedDecode | codebook_features/train_toy_model.py:191-206 | two encodings joined by `<|endoftext|>` decode to the concatenated trajectory: the marker is removed and nothing else changes |
| ToyGraphs.RoundTrip | codebook_features/train_toy_model.py:191-206 | for `digits ≥ 1` and states below `10^digits`, `seq_to_traj(traj_to_str(t)) == [t]` |
| Decimal.NatToStr | codebook_features/train_toy_model.py:206 | `str(x)` is a non-empty run of digits without a leading zero |
| Decimal.DigitsValueOfNatToStr | codebook_features/train_toy_model.py:206 | the digits of `str(x)` denote x |
| Decimal.LeadingZerosIgnored | codebook_features/train_toy_model.py:206 | left-padding with zeros does not change the value |
| Decimal.NatToStrFits | codebook_features/train_toy_model.py:206 | `str(x)` has at most d characters exactly when `x < 10^d` |
| Decimal.ParseInt | codebook_features/train_toy_model.py:201 | `int(s)` succeeds exactly on an optional sign followed by digits; plain and `+` forms give the digits' value and `-` its negation; otherwise `ValueError` |
| Decimal.ParseInts | codebook_features/train_toy_model.py:199-201 | a list comprehension of `int` succeeds exactly when every item parses, keeping count and order; otherwise `ValueError` |
| Decimal.ParseIntOfNatToStr | codebook_features/train_toy_model.py:201 | `int(str(x)) == x` |
| Strings.Split | codebook_features/toy_utils.py:12 | `split` yields at least one piece, no piece holds the separator, and joining the pieces restores the text |
| Strings.SplitPrefix | codebook_features/toy_utils.py:254 | a separator-free prefix becomes part of the first piece |
| Strings.SplitJoin | codebook_features/toy_utils.py:12 | splitting a join of separator-free pieces gives the pieces back |
| Strings.ReplaceAbsent | codebook_features/train_toy_model.py:197 | `replace` leaves a text without the pattern unchanged |
| Strings.Join | codebook_features/toy_utils.py:272 | `sep.join(parts)` is empty for no parts, and otherwise its length is the parts' total length plus one separator fewer than there are parts |
| Strings.JoinEnds | codebook_features/toy_utils.py:272 | a `join` starts with the first part and ends with the last |
| Strings.ReplaceAll | codebook_features/train_toy_model.py:197 | `replace` with a same-length replacement keeps the length, and a text shorter than the pattern is unchanged |
| Strings.ReplaceJoin | codebook_features/train_toy_model.py:197 | in a text made of pieces without the pattern's first character joined by the pattern, `replace` turns every occurrence into the replacement and changes nothing else |
| Strings.ReplaceChar | codebook_features/toy_utils.py:270-271 | replacing one character by another rewrites exactly its occurrences and keeps everything else in place |
| ToyUtils.CodebookInfoFromHookKey | codebook_features/toy_utils.py:10-19 | in reading order: fewer than 2 fields is `IndexError`, a non-integer field 2 `ValueError`, fewer than 3 fields `IndexError`; a non-"attn" component gives (layer, component, None); for "attn", fewer than 6 fields is `IndexError`, a non-integer field 6 `ValueError`, else the head is that integer |
| ToyUtils.HookKeyRoundTrip | codebook_features/toy_utils.py:10-19 | a key assembled from a layer number, a component and (for attention) a head reads back as those values |
| ToyUtils.LayerNumbers | codebook_features/toy_utils.py:254-255 | one text per comma item of the part before the first `_`, each without its first character |
| ToyUtils.LayersFromPatchingStr | codebook_features/toy_utils.py:252-256 | one integer per comma item before the first `_`, each parsed without its first character |
| ToyUtils.LayersRoundTrip | codebook_features/toy_utils.py:252-256 | `"l<a>,l<b>,..._suffix"` reads back as the layers `[a, b, ...]` |
| ToyUtils.LayersExample | codebook_features/toy_utils.py:252-256 | `"l0,l3_attn"` gives `[0, 3]` |
| ToyUtils.CleanLayerItem | codebook_features/toy_utils.py:266-271 | cleaning a layer item keeps its length, and an item without 'a' only has every 'l' upper-cased |
| ToyUtils.CleanComponentItem | codebook_features/toy_utils.py:265-277 | cleaning a component keeps its length, and an item with neither 'a' nor 'm' is kept as it is |
| ToyUtils.CleanPatchingName | codebook_features/toy_utils.py:259-279 | `"none"` becomes `"None"`; a name without `_` ends in a single space |
| ToyUtils.CleanPatchingNameOfParts | codebook_features/toy_utils.py:263-279 | the output is the cleaned layer items joined by ", ", a space, then the cleaned components joined by ", ": items keep their number and order |
| ToyUtils.CleanNumberedLayer | codebook_features/toy_utils.py:266-271 | `"l<n>"` becomes `"L<n>"` |
| ToyUtils.CleanAllLayers | codebook_features/toy_utils.py:266-271 | `"all"` becomes `"All"`, because "l"→"L" runs before "aLL"→"All" |
| ToyUtils.CleanComponents | codebook_features/toy_utils.py:274-277 | `"attn"` becomes `"Attn"` and `"mlp"` becomes `"MLP"` |
| ToyUtils.CleanNameExample | codebook_features/toy_utils.py:259-279 | `"l0,l3_attn"` becomes `"L0, L3 Attn"` |

## Left out

- `KmeansEmbedding` (`codebook_features/models.py:12-82`): it relies on sklearn's KMeans, a foreign call.
- CodebookLayers.SoftSnapVector: the soft-mode softmax is a parameter, so the contract states only the output width. Exponentials and floating point are not modelled. The source promises only that soft mode leaves the counts unchanged, which `Forward` states.
- Autograd mechanics (`ctx`, `enable_grad`, `detach`, `clone`): the gradient rule is stated directly, and `CodebookGradientIsExact` shows it is the true derivative.
- The randomness of `expire_codes`: the weight matrix is a parameter. Only convex weights (non-negative, summing to one) are assumed in `ExpiredRowsStayInRange`. Device moves are not modelled.
- The order of the underused set: CPython lists a set in hash-table slot order, which for small integers depends on the table size and insertion history (adding 1 then 8 lists as `[8, 1]`). The model lists the codes in ascending order instead. Nothing is lost because the replacement rows are drawn independently and identically, and `weights` is a free parameter: any pairing of weight rows with codes is one choice of `weights`.
- `freeze_model_params`, `requires_grad`, `get_input_embeddings`, and the Bert/GPT2 accessors: the backbone is an abstract list of layer handles with a hidden size.
- CodebookModels.AddCodebooks: it requires every slot to be unwrapped, because the source calls it once, right after `__init__`. Calling it twice is not modelled.
- Snapping toggles on a backbone without `add_codebooks`: Python would set a plain attribute on an unwrapped layer. `SetSnap` changes wrapped layers only.
- Rank-0 tensors: a tensor has at least one axis.
- `ToyGraph.__init__`, `step`, `step_with`, `reset`, `set_seed`, `generate_*`, `save`/`load`: random generation and file I/O.
- `ToyDataset`, `ToyModelTrainer`, `create_tokenizer`, `load_model`, `main`: tokenizers, training, hydra and wandb.
- `digits = ceil(log10(N))` (floating point): `digits` is a parameter.
- The transition matrix's probabilities: only which entries are zero matters to the modelled functions.
- ToyGraphs.VerifyTrajectory: the "Fail index" printing is not modelled.
- `traj_to_str` with negative states: states are natural numbers, as `rng.choice` produces.
- Decimal.ParseInt: Python's `int()` also accepts surrounding whitespace, underscores between digits, and non-ASCII digits; these are left out.
- Helpers of `codebook_features/toy_utils.py` that run models on CUDA (`start_state_activations`, `partition_input_on_codebook`, `get_next_state_probs`, `correct_next_state_probs`, `first_transition_accuracy`), `plot_js_div` (plotting), `find_code_changes` (printing), and `valid_input` (uses attributes `ToyGraph` lacks).
- `codebook_features/webapp/pages/Concept_Code.py`: Streamlit user interface.
