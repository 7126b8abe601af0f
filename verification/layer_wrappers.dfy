/** `TransformerLayerWrapper` of `codebook_features/models.py`: intercepts the
    output tuple of a backbone layer and snaps its first element. */
module LayerWrappers {
  import opened Errors
  import opened Tensors
  import opened CodebookLayers

  /** One element of a layer's output tuple: the activation tensor, or an
      auxiliary value (attention weights, a cache, `None`) the wrapper never reads. */
  datatype Value = Activations(t: Tensor) | Auxiliary(tag: int)

  datatype Wrapper = Wrapper(codebookLayer: CodebookLayer, snap: bool)

  datatype WrapperStep = WrapperStep(wrapper: Wrapper, outputs: seq<Value>)

  /** The output tuple with its first element replaced by `out`. */
  function ReplaceFirst(layerOutputs: seq<Value>, out: Tensor): (r: seq<Value>)
    requires |layerOutputs| > 0
    ensures |r| == |layerOutputs| && r[0] == Activations(out)
    ensures forall k :: 1 <= k < |layerOutputs| ==> r[k] == layerOutputs[k]
  {
    [Activations(out)] + layerOutputs[1..]
  }

  /** `TransformerLayerWrapper.forward`, given what the wrapped layer returned.
      With `snap` off the tuple is returned as it is; with `snap` on only its
      first element is replaced, by the codebook layer's output. */
  function WrapperForward(w: Wrapper, layerOutputs: seq<Value>, softmax: seq<real> -> seq<real>): (r: Result<WrapperStep>)
    requires forall s :: |softmax(s)| == |s|
    ensures !w.snap ==> r == Ok(WrapperStep(w, layerOutputs))
    ensures w.snap && |layerOutputs| == 0 ==> r == Err(IndexError)
    ensures w.snap && |layerOutputs| > 0 && layerOutputs[0].Auxiliary? ==> r == Err(AttributeError)
    ensures r.Ok? ==> |r.value.outputs| == |layerOutputs|
    ensures r.Ok? ==> forall k :: 1 <= k < |layerOutputs| ==> r.value.outputs[k] == layerOutputs[k]
    ensures w.snap && |layerOutputs| > 0 && layerOutputs[0].Activations? &&
            Forward(w.codebookLayer, layerOutputs[0].t, softmax).Err? ==>
              r == Err(Forward(w.codebookLayer, layerOutputs[0].t, softmax).error)
    ensures w.snap && |layerOutputs| > 0 && layerOutputs[0].Activations? &&
            Forward(w.codebookLayer, layerOutputs[0].t, softmax).Ok? ==>
              var s := Forward(w.codebookLayer, layerOutputs[0].t, softmax).value;
              r.Ok? && r.value.outputs[0] == Activations(s.output) && r.value.wrapper == Wrapper(s.layer, true)
  {
    if !w.snap then
      Ok(WrapperStep(w, layerOutputs))
    else if |layerOutputs| == 0 then
      Err(IndexError)
    else if layerOutputs[0].Auxiliary? then
      Err(AttributeError)
    else
      match Forward(w.codebookLayer, layerOutputs[0].t, softmax)
      case Err(e) => Err(e)
      case Ok(s) => Ok(WrapperStep(Wrapper(s.layer, true), ReplaceFirst(layerOutputs, s.output)))
  }
}
