/**
 Packing attention projections (dit_block.py) and stacking the layers' context
 projections (fused_action_pre.py): one layer over concatenated rows computes what the
 separate layers compute, and the packed modules keep their projections.
 */
module Packing {
  import opened Wrappers

  type Row = seq<real>

  /** A Linear or FP8Linear: one weight row, scale and bias per output. */
  datatype Layer = Layer(fp8: bool, weight: seq<Row>, scale: Row, bias: Option<Row>)

  /** The arithmetic of a layer: token quantisation, row products, output cast. */
  datatype Env = Env(quant: Row -> (Row, real), dot: (Row, Row) -> real, cast: real -> real)

  ghost predicate Proper(l: Layer)
  {
    |l.scale| == |l.weight| && (l.bias.Some? ==> |l.bias.value| == |l.weight|)
  }

  function Bias(l: Layer, n: nat): real
    requires n < |l.weight| && Proper(l)
  {
    if l.bias.Some? then l.bias.value[n] else 0.0
  }

  /** A weight row against the token, scaled for fp8, plus the bias. */
  function RowSum(env: Env, fp8: bool, weight: Row, scale: real, bias: real, x: Row): real
  {
    if fp8 then env.dot(env.quant(x).0, weight) * env.quant(x).1 * scale + bias
    else env.dot(x, weight) + bias
  }

  /** One output: the sum under the output cast. */
  function RowOut(env: Env, fp8: bool, weight: Row, scale: real, bias: real, x: Row): real
  {
    env.cast(RowSum(env, fp8, weight, scale, bias, x))
  }

  /** Output n for the token x. */
  function Out(env: Env, l: Layer, x: Row, n: nat): real
    requires n < |l.weight| && Proper(l)
  {
    RowOut(env, l.fp8, l.weight[n], l.scale[n], Bias(l, n), x)
  }

  function Forward(env: Env, l: Layer, x: Row): (r: Row)
    requires Proper(l)
    ensures |r| == |l.weight|
  {
    seq(|l.weight|, n requires 0 <= n < |l.weight| => Out(env, l, x, n))
  }

  /** A plain layer neither quantises nor scales. */
  lemma PlainLayer(env: Env, l: Layer, x: Row, n: nat)
    requires n < |l.weight| && Proper(l) && !l.fp8
    ensures Out(env, l, x, n) == env.cast(env.dot(x, l.weight[n]) + Bias(l, n))
  {
  }

  /** Where quantisation loses nothing, an fp8 layer is the plain layer of the weights its
      rows and scales stand for. */
  lemma LosslessFp8(env: Env, l: Layer, plain: Layer, x: Row, n: nat)
    requires n < |l.weight| && Proper(l) && l.fp8
    requires n < |plain.weight| && Proper(plain) && !plain.fp8 && Bias(plain, n) == Bias(l, n)
    requires env.dot(x, plain.weight[n]) == env.dot(env.quant(x).0, l.weight[n]) * env.quant(x).1 * l.scale[n]
    ensures Out(env, l, x, n) == Out(env, plain, x, n)
  {
    assert RowSum(env, true, l.weight[n], l.scale[n], Bias(l, n), x)
      == RowSum(env, false, plain.weight[n], plain.scale[n], Bias(plain, n), x);
  }

  // ---------------------------------------------------------------- concatenated rows

  function Concat<T>(parts: seq<seq<T>>): seq<T>
  {
    if parts == [] then [] else parts[0] + Concat(parts[1..])
  }

  function Weights(parts: seq<Layer>): (r: seq<seq<Row>>)
    ensures |r| == |parts|
  {
    seq(|parts|, i requires 0 <= i < |parts| => parts[i].weight)
  }

  function Scales(parts: seq<Layer>): (r: seq<Row>)
    ensures |r| == |parts|
  {
    seq(|parts|, i requires 0 <= i < |parts| => parts[i].scale)
  }

  function Biases(parts: seq<Layer>): (r: seq<Row>)
    requires forall p <- parts :: p.bias.Some?
    ensures |r| == |parts|
  {
    seq(|parts|, i requires 0 <= i < |parts| => assert parts[i] in parts; parts[i].bias.value)
  }

  /** Layers that can be concatenated: of one kind; if the first has a bias, all have. */
  ghost predicate Compatible(parts: seq<Layer>)
  {
    && parts != [] && (forall p <- parts :: Proper(p) && p.fp8 == parts[0].fp8)
    && (parts[0].bias.Some? ==> forall p <- parts :: p.bias.Some?)
  }

  /** Whether there is a bias is decided by the first part alone. */
  function CatRows(parts: seq<Layer>): Layer
    requires Compatible(parts)
  {
    Layer(parts[0].fp8, Concat(Weights(parts)), Concat(Scales(parts)),
      if parts[0].bias.Some? then Some(Concat(Biases(parts))) else None)
  }

  /** Rows before part i. */
  function Before(parts: seq<Layer>, i: nat): nat
    requires i <= |parts|
  {
    if i == 0 then 0 else Before(parts, i - 1) + |parts[i - 1].weight|
  }

  lemma {:induction false} BeforeTail(parts: seq<Layer>, i: nat)
    requires 0 < i <= |parts|
    ensures Before(parts, i) == |parts[0].weight| + Before(parts[1..], i - 1)
  {
    if i > 1 { BeforeTail(parts, i - 1); }
  }

  /** Row n of part i of any per-row list that has as many entries as the part has rows. */
  lemma {:induction false} ConcatAt<T>(lists: seq<seq<T>>, parts: seq<Layer>, i: nat, n: nat)
    requires |lists| == |parts| && i < |parts| && n < |parts[i].weight|
    requires forall j :: 0 <= j < |parts| ==> |lists[j]| == |parts[j].weight|
    ensures Before(parts, i) + n < |Concat(lists)| && Concat(lists)[Before(parts, i) + n] == lists[i][n]
    decreases i
  {
    if i > 0 {
      BeforeTail(parts, i);
      ConcatAt(lists[1..], parts[1..], i - 1, n);
    }
  }

  lemma {:induction false} ConcatLength<T>(lists: seq<seq<T>>, parts: seq<Layer>)
    requires |lists| == |parts| && forall j :: 0 <= j < |parts| ==> |lists[j]| == |parts[j].weight|
    ensures |Concat(lists)| == Before(parts, |parts|)
  {
    if parts != [] {
      BeforeTail(parts, |parts|);
      ConcatLength(lists[1..], parts[1..]);
    }
  }

  lemma CatProper(parts: seq<Layer>)
    requires Compatible(parts)
    ensures Proper(CatRows(parts)) && |CatRows(parts).weight| == Before(parts, |parts|)
  {
    ProperParts(parts);
    ConcatLength(Weights(parts), parts);
    ConcatLength(Scales(parts), parts);
    if parts[0].bias.Some? { ConcatLength(Biases(parts), parts); }
  }

  lemma ProperParts(parts: seq<Layer>)
    requires Compatible(parts)
    ensures forall i :: 0 <= i < |parts| ==> Proper(parts[i]) && parts[i].fp8 == parts[0].fp8
    ensures parts[0].bias.Some? ==> forall i :: 0 <= i < |parts| ==> parts[i].bias.Some?
  {
    forall i | 0 <= i < |parts|
      ensures Proper(parts[i]) && parts[i].fp8 == parts[0].fp8 && (parts[0].bias.Some? ==> parts[i].bias.Some?)
    {
      assert parts[i] in parts;
    }
  }

  /** The concatenation keeps the bias of every row: it is only lost when the first part
      has none and a later one has. */
  ghost predicate BiasKept(parts: seq<Layer>)
    requires Compatible(parts)
  {
    parts[0].bias.Some? ||
    forall i, n :: 0 <= i < |parts| && 0 <= n < |parts[i].weight| ==> (ProperParts(parts); Bias(parts[i], n) == 0.0)
  }

  /** Row n of part i of the concatenation, with its bias unless that was dropped. */
  lemma CatOut(env: Env, parts: seq<Layer>, x: Row, i: nat, n: nat)
    requires Compatible(parts) && i < |parts| && n < |parts[i].weight|
    ensures Proper(parts[i]) && Proper(CatRows(parts)) && Before(parts, i) + n < |CatRows(parts).weight|
    ensures var l := CatRows(parts);
            Out(env, l, x, Before(parts, i) + n) ==
            Out(env, parts[i].(bias := if parts[0].bias.Some? then parts[i].bias else None), x, n)
  {
    hide RowOut, Compatible, Concat;
    ProperParts(parts);
    CatProper(parts);
    ConcatAt(Weights(parts), parts, i, n);
    ConcatAt(Scales(parts), parts, i, n);
    if parts[0].bias.Some? { ConcatAt(Biases(parts), parts, i, n); }
  }

  lemma OutIgnoresZeroBias(env: Env, l: Layer, x: Row, n: nat)
    requires Proper(l) && n < |l.weight| && Bias(l, n) == 0.0
    ensures Out(env, l.(bias := None), x, n) == Out(env, l, x, n)
  {
  }

  /** Part i of the packed output. */
  function Slice(env: Env, parts: seq<Layer>, x: Row, i: nat): (r: Row)
    requires Compatible(parts) && i < |parts|
    ensures |r| == |parts[i].weight|
  {
    CatProper(parts);
    BeforeMono(parts, i + 1, |parts|);
    Forward(env, CatRows(parts), x)[Before(parts, i)..Before(parts, i + 1)]
  }

  lemma {:induction false} BeforeMono(parts: seq<Layer>, i: nat, j: nat)
    requires i <= j <= |parts|
    ensures Before(parts, i) <= Before(parts, j)
  {
    if i < j { BeforeMono(parts, i, j - 1); }
  }

  lemma SliceAt(env: Env, parts: seq<Layer>, x: Row, i: nat, n: nat)
    requires Compatible(parts) && i < |parts| && n < |parts[i].weight|
    ensures Proper(parts[i])
    ensures Slice(env, parts, x, i)[n] ==
            Out(env, parts[i].(bias := if parts[0].bias.Some? then parts[i].bias else None), x, n)
  {
    hide Out;
    CatOut(env, parts, x, i, n);
    var l := CatRows(parts);
    BeforeMono(parts, i + 1, |parts|);
    CatProper(parts);
    assert Forward(env, l, x)[Before(parts, i) + n] == Out(env, l, x, Before(parts, i) + n);
  }

  ghost predicate SliceIsPart(env: Env, parts: seq<Layer>, x: Row, i: nat)
    requires Compatible(parts)
  {
    i < |parts| ==> (ProperParts(parts); Slice(env, parts, x, i) == Forward(env, parts[i], x))
  }

  lemma SliceFaithful(env: Env, parts: seq<Layer>, x: Row, i: nat)
    requires Compatible(parts) && BiasKept(parts)
    ensures SliceIsPart(env, parts, x, i)
  {
    if i < |parts| {
      ProperParts(parts);
      var s := Slice(env, parts, x, i);
      forall n | 0 <= n < |s|
        ensures s[n] == Forward(env, parts[i], x)[n]
      {
        SliceAt(env, parts, x, i, n);
        if parts[0].bias.None? { OutIgnoresZeroBias(env, parts[i], x, n); }
      }
    }
  }

  /** With this arithmetic every output is its bias. */
  function BiasOnly(): Env
  {
    Env(x => (x, 1.0), (x, y) => 0.0, x => x)
  }

  lemma BiasOnlyOut(l: Layer, x: Row, n: nat)
    requires Proper(l) && n < |l.weight|
    ensures Out(BiasOnly(), l, x, n) == Bias(l, n)
  {
  }

  /** One GEMM over the concatenated rows gives every part's own output, for every
      arithmetic and input, exactly when no bias is dropped. */
  lemma PackedFaithfulExactlyWhen(parts: seq<Layer>)
    requires Compatible(parts)
    ensures (forall env, x, i :: SliceIsPart(env, parts, x, i)) <==> BiasKept(parts)
  {
    if BiasKept(parts) {
      forall env, x, i
        ensures SliceIsPart(env, parts, x, i)
      {
        SliceFaithful(env, parts, x, i);
      }
    } else {
      ProperParts(parts);
      var i: nat, n: nat :| i < |parts| && n < |parts[i].weight| && Bias(parts[i], n) != 0.0;
      DroppedBias(parts, i, n);
    }
  }

  lemma DroppedBias(parts: seq<Layer>, i: nat, n: nat)
    requires Compatible(parts) && parts[0].bias.None? && i < |parts| && n < |parts[i].weight|
    requires Proper(parts[i]) && Bias(parts[i], n) != 0.0
    ensures !SliceIsPart(BiasOnly(), parts, [], i)
  {
    ProperParts(parts);
    SliceAt(BiasOnly(), parts, [], i, n);
    BiasOnlyOut(parts[i], [], n);
    BiasOnlyOut(parts[i].(bias := None), [], n);
    assert Slice(BiasOnly(), parts, [], i)[n] == 0.0;
    assert Forward(BiasOnly(), parts[i], [])[n] != 0.0;
  }

  /** For instance: of two layers only the second has a bias, and loses it. */
  lemma SecondBiasLost()
    ensures var parts := [Layer(true, [[1.0]], [1.0], None), Layer(true, [[1.0]], [1.0], Some([1.0]))];
            Compatible(parts) && !SliceIsPart(BiasOnly(), parts, [], 1)
  {
    var parts := [Layer(true, [[1.0]], [1.0], None), Layer(true, [[1.0]], [1.0], Some([1.0]))];
    DroppedBias(parts, 1, 0);
  }
}
