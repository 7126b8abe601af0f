/** Rectangular tensors: the codebook matrix and the activation tensors a codebook
    layer reads and writes. */
module Tensors {
  import opened Vectors

  datatype RawMatrix = RawMatrix(dim: nat, rows: seq<Vector>)

  predicate IsMatrix(m: RawMatrix)
  {
    forall j :: 0 <= j < |m.rows| ==> |m.rows[j]| == m.dim
  }

  /** A `num_codes x dim` matrix: every row has length `dim`. */
  type Matrix = m: RawMatrix | IsMatrix(m) witness RawMatrix(0, [])

  /** The number of vectors a tensor of this shape holds along its last axis:
      the product of every dimension but the last. */
  function Positions(shape: seq<nat>): nat
    requires |shape| >= 1
  {
    if |shape| == 1 then 1 else shape[0] * Positions(shape[1..])
  }

  function LastOf(shape: seq<nat>): nat
    requires |shape| >= 1
  {
    shape[|shape| - 1]
  }

  /** A tensor given by its shape and, in row-major order, the vectors along its last axis. */
  datatype RawTensor = RawTensor(shape: seq<nat>, data: seq<Vector>)

  predicate IsTensor(t: RawTensor)
  {
    && |t.shape| >= 1
    && |t.data| == Positions(t.shape)
    && forall i :: 0 <= i < |t.data| ==> |t.data[i]| == LastOf(t.shape)
  }

  type Tensor = t: RawTensor | IsTensor(t) witness RawTensor([0], [[]])

  /** The size of the last axis, `x.shape[-1]`. */
  function LastDim(t: Tensor): nat
  {
    LastOf(t.shape)
  }
}
