/**
 Packing the attentions of a module tree in place (pack_attention_qkv_fp8 in
 dit_block.py): attributes are added and deleted while recursing, and every attention
 keeps the projections it is asked for.
 */
module PackTree {
  import opened Wrappers
  import opened Packing
  import Powers

  /** The projection attributes of an attention module; None is absent or None. */
  datatype Fields = Fields(q: Option<Layer>, k: Option<Layer>, v: Option<Layer>, qkv: Option<Layer>, kv: Option<Layer>)

  /** As constructed and not packed yet: three layers of one size, with biases or without. */
  ghost predicate Built(f: Fields)
  {
    && f.q.Some? && f.k.Some? && f.v.Some? && f.qkv.None? && f.kv.None?
    && Proper(f.q.value) && Proper(f.k.value) && Proper(f.v.value)
    && |f.q.value.weight| == |f.k.value.weight| == |f.v.value.weight|
    && (f.q.value.bias.Some? <==> f.k.value.bias.Some?) && (f.k.value.bias.Some? <==> f.v.value.bias.Some?)
  }

  // ---------------------------------------------------------------- projections

  /** torch.chunk(c, dim=-1): pieces of ceil(length / c). */
  function ChunkAt(r: Row, c: nat, i: nat): Row
    requires c > 0
  {
    var size := (|r| + c - 1) / c;
    var lo, hi := i * size, (i + 1) * size;
    if lo >= |r| then [] else if hi > |r| then r[lo..] else r[lo..hi]
  }

  /** qkv_proj; None where the code would fail. */
  ghost function QkvProj(env: Env, f: Fields, x: Row): Option<seq<Row>>
  {
    if f.qkv.Some? && Proper(f.qkv.value) then
      var r := Forward(env, f.qkv.value, x);
      Some([ChunkAt(r, 3, 0), ChunkAt(r, 3, 1), ChunkAt(r, 3, 2)])
    else if f.q.Some? && f.k.Some? && f.v.Some? && Proper(f.q.value) && Proper(f.k.value) && Proper(f.v.value) then
      Some([Forward(env, f.q.value, x), Forward(env, f.k.value, x), Forward(env, f.v.value, x)])
    else None
  }

  ghost function KvProj(env: Env, f: Fields, x: Row): Option<seq<Row>>
  {
    if f.kv.Some? && Proper(f.kv.value) then
      var r := Forward(env, f.kv.value, x);
      Some([ChunkAt(r, 2, 0), ChunkAt(r, 2, 1)])
    else if f.k.Some? && f.v.Some? && Proper(f.k.value) && Proper(f.v.value) then
      Some([Forward(env, f.k.value, x), Forward(env, f.v.value, x)])
    else None
  }

  /** The attributes after packing a self attention ... */
  ghost function PackedSelf(f: Fields): Fields
  {
    if Built(f) && Compatible([f.q.value, f.k.value, f.v.value]) then
      Fields(None, None, None, Some(CatRows([f.q.value, f.k.value, f.v.value])), f.kv)
    else f
  }

  /** ... and a cross attention, whose q stays. */
  ghost function PackedCross(f: Fields): Fields
  {
    if Built(f) && Compatible([f.k.value, f.v.value]) then
      Fields(f.q, None, None, f.qkv, Some(CatRows([f.k.value, f.v.value])))
    else f
  }

  lemma ChunkOfEqual(r: Row, c: nat, i: nat, size: nat)
    requires c > 0 && i < c && |r| == c * size
    ensures i * size <= (i + 1) * size <= |r| && ChunkAt(r, c, i) == r[i * size..(i + 1) * size]
  {
    Powers.DivUnique(|r| + c - 1, c, size, c - 1);
    Powers.MulMono(i + 1, c, size);
    Powers.MulMono(i, i + 1, size);
    if i * size == |r| { assert r[i * size..(i + 1) * size] == []; }
  }

  lemma {:induction false} EvenBefore(parts: seq<Layer>, size: nat, i: nat)
    requires i <= |parts| && forall j :: 0 <= j < |parts| ==> |parts[j].weight| == size
    ensures Before(parts, i) == i * size
  {
    if i > 0 { EvenBefore(parts, size, i - 1); }
  }

  /** Chunking the packed output gives the separate outputs. */
  lemma ChunksAreParts(env: Env, parts: seq<Layer>, x: Row, size: nat, i: nat)
    requires Compatible(parts) && BiasKept(parts) && i < |parts|
    requires forall j :: 0 <= j < |parts| ==> |parts[j].weight| == size
    ensures Proper(CatRows(parts)) && Proper(parts[i])
    ensures ChunkAt(Forward(env, CatRows(parts), x), |parts|, i) == Forward(env, parts[i], x)
  {
    hide Compatible, BiasKept, CatRows, Forward;
    CatProper(parts);
    ProperParts(parts);
    EvenBefore(parts, size, i);
    EvenBefore(parts, size, i + 1);
    EvenBefore(parts, size, |parts|);
    SliceFaithful(env, parts, x, i);
    ChunkOfEqual(Forward(env, CatRows(parts), x), |parts|, i, size);
  }

  lemma UniformKept(parts: seq<Layer>)
    requires Compatible(parts) && forall p <- parts :: p.bias.Some? <==> parts[0].bias.Some?
    ensures BiasKept(parts)
  {
    ProperParts(parts);
    forall i, n | 0 <= i < |parts| && 0 <= n < |parts[i].weight|
      ensures parts[0].bias.None? ==> Bias(parts[i], n) == 0.0
    {
      assert parts[i] in parts;
    }
  }

  lemma SelfKept(env: Env, f: Fields, x: Row)
    requires Built(f)
    ensures QkvProj(env, PackedSelf(f), x) == QkvProj(env, f, x)
  {
    var parts := [f.q.value, f.k.value, f.v.value];
    if Compatible(parts) {
      UniformKept(parts);
      var size := |f.q.value.weight|;
      ChunksAreParts(env, parts, x, size, 0);
      ChunksAreParts(env, parts, x, size, 1);
      ChunksAreParts(env, parts, x, size, 2);
    }
  }

  lemma CrossKept(env: Env, f: Fields, x: Row)
    requires Built(f)
    ensures KvProj(env, PackedCross(f), x) == KvProj(env, f, x) && PackedCross(f).q == f.q
  {
    var parts := [f.k.value, f.v.value];
    if Compatible(parts) {
      UniformKept(parts);
      var size := |f.q.value.weight|;
      ChunksAreParts(env, parts, x, size, 0);
      ChunksAreParts(env, parts, x, size, 1);
    }
  }

  // ---------------------------------------------------------------- modules

  class Attention {
    var q: Option<Layer>
    var k: Option<Layer>
    var v: Option<Layer>
    var qkv: Option<Layer>
    var kv: Option<Layer>

    constructor (q: Layer, k: Layer, v: Layer)
      ensures Now() == Fields(Some(q), Some(k), Some(v), None, None)
    {
      this.q, this.k, this.v, this.qkv, this.kv := Some(q), Some(k), Some(v), None, None;
    }

    function Now(): Fields
      reads this
    {
      Fields(q, k, v, qkv, kv)
    }

    method PackSelfQkv()
      requires Built(Now()) && Compatible([q.value, k.value, v.value])
      modifies this
      ensures Now() == PackedSelf(old(Now()))
    {
      qkv := Some(CatRows([q.value, k.value, v.value]));
      q := None;
      k := None;
      v := None;
    }

    method PackCrossKv()
      requires Built(Now()) && Compatible([k.value, v.value])
      modifies this
      ensures Now() == PackedCross(old(Now()))
    {
      kv := Some(CatRows([k.value, v.value]));
      k := None;
      v := None;
    }
  }

  /** A module: a DiT block with its two attentions, or any other with its children. */
  datatype Module = Block(selfAttn: Attention, crossAttn: Attention) | Container(children: seq<Module>)

  ghost function Selfs(m: Module): set<Attention>
  {
    match m
    case Block(s, _) => {s}
    case Container(cs) => set c, a | c in cs && a in Selfs(c) :: a
  }

  ghost function Crosses(m: Module): set<Attention>
  {
    match m
    case Block(_, c) => {c}
    case Container(cs) => set c, a | c in cs && a in Crosses(c) :: a
  }

  ghost function Attentions(m: Module): set<Attention>
  {
    Selfs(m) + Crosses(m)
  }

  /** No attention occurs twice in the tree. */
  ghost predicate Tree(m: Module)
  {
    match m
    case Block(s, c) => s != c
    case Container(cs) =>
      && (forall i :: 0 <= i < |cs| ==> Tree(cs[i]))
      && (forall i, j :: 0 <= i < j < |cs| ==> Attentions(cs[i]) !! Attentions(cs[j]))
  }

  predicate AllFp8(f: Fields)
  {
    f.q.Some? && f.k.Some? && f.v.Some? && f.q.value.fp8 && f.k.value.fp8 && f.v.value.fp8
  }

  predicate KvFp8(f: Fields)
  {
    f.k.Some? && f.v.Some? && f.k.value.fp8 && f.v.value.fp8
  }

  /** What pack_attention_qkv_fp8 makes of an attention: mixed ones are left alone. */
  ghost function SelfAfter(f: Fields): Fields
  {
    if AllFp8(f) then PackedSelf(f) else f
  }

  ghost function CrossAfter(f: Fields): Fields
  {
    if KvFp8(f) then PackedCross(f) else f
  }

  /** One layer that is not fp8 and the attention keeps its attributes; otherwise they are
      replaced by one. */
  lemma MixedLeftAlone(f: Fields)
    requires Built(f)
    ensures !f.q.value.fp8 || !f.k.value.fp8 || !f.v.value.fp8 ==> SelfAfter(f) == f
    ensures f.q.value.fp8 && f.k.value.fp8 && f.v.value.fp8 ==>
              var g := SelfAfter(f); g.qkv.Some? && g.q.None? && g.k.None? && g.v.None? && g.kv.None?
    ensures !f.k.value.fp8 || !f.v.value.fp8 ==> CrossAfter(f) == f
    ensures f.k.value.fp8 && f.v.value.fp8 ==>
              var g := CrossAfter(f); g.kv.Some? && g.q == f.q && g.k.None? && g.v.None? && g.qkv.None?
  {
    BuiltCompatible(f);
  }

  /** How many attentions get packed, given their attributes. */
  ghost function Packable(m: Module, was: map<Attention, Fields>): nat
    requires Attentions(m) <= was.Keys
  {
    match m
    case Block(s, c) => (if AllFp8(was[s]) then 1 else 0) + if KvFp8(was[c]) then 1 else 0
    case Container(cs) =>
      InContainers(cs);
      PackableIn(cs, was)
  }

  ghost function PackableIn(cs: seq<Module>, was: map<Attention, Fields>): nat
    requires forall c <- cs :: Attentions(c) <= was.Keys
  {
    if cs == [] then 0 else PackableIn(cs[..|cs| - 1], was) + Packable(cs[|cs| - 1], was)
  }

  lemma InContainers(cs: seq<Module>)
    ensures forall c <- cs :: Selfs(c) <= Selfs(Container(cs)) && Crosses(c) <= Crosses(Container(cs))
  {
  }

  lemma BuiltCompatible(f: Fields)
    requires Built(f)
    ensures AllFp8(f) ==> Compatible([f.q.value, f.k.value, f.v.value])
    ensures KvFp8(f) ==> Compatible([f.k.value, f.v.value])
  {
  }

  /** The two attentions of a block. */
  method PackBlock(s: Attention, c: Attention) returns (count: nat)
    requires s != c && Built(s.Now()) && Built(c.Now())
    modifies s, c
    ensures s.Now() == SelfAfter(old(s.Now())) && c.Now() == CrossAfter(old(c.Now()))
    ensures count == (if AllFp8(old(s.Now())) then 1 else 0) + if KvFp8(old(c.Now())) then 1 else 0
  {
    count := 0;
    BuiltCompatible(s.Now());
    BuiltCompatible(c.Now());
    if AllFp8(s.Now()) {
      s.PackSelfQkv();
      count := count + 1;
    }
    if KvFp8(c.Now()) {
      c.PackCrossKv();
      count := count + 1;
    }
  }

  ghost predicate AsBefore(m: Module, was: map<Attention, Fields>)
    reads Attentions(m)
  {
    forall a <- Attentions(m) :: Built(a.Now()) && a in was && was[a] == a.Now()
  }

  /** Every attention of the tree is as SelfAfter and CrossAfter say. */
  ghost predicate AllPacked(m: Module, was: map<Attention, Fields>)
    reads Attentions(m)
  {
    && (forall a <- Selfs(m) :: a in was && a.Now() == SelfAfter(was[a]))
    && (forall a <- Crosses(m) :: a in was && a.Now() == CrossAfter(was[a]))
  }

  lemma ContainerAsBefore(cs: seq<Module>, was: map<Attention, Fields>)
    requires AsBefore(Container(cs), was)
    ensures forall i :: 0 <= i < |cs| ==> AsBefore(cs[i], was)
    ensures forall c <- cs :: Attentions(c) <= was.Keys
  {
    InContainers(cs);
    hide Built;
  }

  lemma ContainerTree(cs: seq<Module>)
    requires Tree(Container(cs))
    ensures forall i :: 0 <= i < |cs| ==> Tree(cs[i]) && Attentions(cs[i]) <= Attentions(Container(cs))
    ensures forall i, j :: 0 <= i < j < |cs| ==> Attentions(cs[i]) !! Attentions(cs[j])
  {
    InContainers(cs);
  }

  lemma ContainerPacked(cs: seq<Module>, was: map<Attention, Fields>)
    requires forall i :: 0 <= i < |cs| ==> AllPacked(cs[i], was)
    ensures AllPacked(Container(cs), was)
  {
    hide SelfAfter, CrossAfter;
    forall a | a in Selfs(Container(cs))
      ensures a in was && a.Now() == SelfAfter(was[a])
    {
      var c :| c in cs && a in Selfs(c);
    }
    forall a | a in Crosses(Container(cs))
      ensures a in was && a.Now() == CrossAfter(was[a])
    {
      var c :| c in cs && a in Crosses(c);
    }
  }

  lemma KeysOf(m: Module, was: map<Attention, Fields>)
    requires AsBefore(m, was)
    ensures Attentions(m) <= was.Keys
  {
  }

  /** pack_attention_qkv_fp8, on attentions with the attributes in `was`: below a module
      that is no block itself each ends up packed as its kind says, and those packed are
      counted.  Only children are looked at, and a block's are no blocks: called on a block,
      it packs nothing. */
  method PackFp8(m: Module, ghost was: map<Attention, Fields>) returns (count: nat)
    requires Tree(m) && AsBefore(m, was)
    modifies if m.Block? then {} else Attentions(m)
    ensures m.Block? ==> count == 0
    ensures m.Container? ==> AllPacked(m, was) && Attentions(m) <= was.Keys && count == Packable(m, was)
    decreases m, 0
  {
    match m
    case Block(_, _) => count := 0;
    case Container(cs) =>
      KeysOf(m, was);
      count := PackChildren(cs, was);
  }

  /** The branches of the loop body for one child. */
  method PackChild(m: Module, ghost was: map<Attention, Fields>) returns (count: nat)
    requires Tree(m) && AsBefore(m, was)
    modifies Attentions(m)
    ensures AllPacked(m, was) && Attentions(m) <= was.Keys && count == Packable(m, was)
    decreases m, 1
  {
    KeysOf(m, was);
    match m
    case Block(s, c) => count := PackBlock(s, c);
    case Container(_) => count := PackFp8(m, was);
  }

  /** The loop over a module's children. */
  method PackChildren(cs: seq<Module>, ghost was: map<Attention, Fields>) returns (count: nat)
    requires Tree(Container(cs)) && AsBefore(Container(cs), was)
    modifies Attentions(Container(cs))
    ensures AllPacked(Container(cs), was)
    ensures (forall c <- cs :: Attentions(c) <= was.Keys) && count == PackableIn(cs, was)
    decreases cs
  {
    hide AsBefore, AllPacked, Packable, Attentions, Selfs, Crosses, Tree;
    ContainerAsBefore(cs, was);
    ContainerTree(cs);
    count := 0;
    var i := 0;
    while i < |cs|
      invariant 0 <= i <= |cs| && count == PackableIn(cs[..i], was)
      invariant forall j :: 0 <= j < i ==> AllPacked(cs[j], was)
      invariant forall j :: i <= j < |cs| ==> AsBefore(cs[j], was)
    {
      var n := PackChild(cs[i], was);
      assert cs[..i + 1][..i] == cs[..i];
      count := count + n;
      i := i + 1;
    }
    assert cs[..i] == cs;
    ContainerPacked(cs, was);
  }

  /** After packing a tree, every self attention's qkv_proj, every cross attention's
      kv_proj and its q give what they gave before. */
  lemma PackingKeepsProjections(env: Env, f: Fields, x: Row)
    requires Built(f)
    ensures QkvProj(env, SelfAfter(f), x) == QkvProj(env, f, x)
    ensures KvProj(env, CrossAfter(f), x) == KvProj(env, f, x) && CrossAfter(f).q == f.q
  {
    hide QkvProj, KvProj, PackedSelf, PackedCross;
    SelfKept(env, f, x);
    CrossKept(env, f, x);
  }

  // ---------------------------------------------------------------- all layers' context

  /** ActionPreRunner stacks every layer's packed kv rows: columns l * out to (l + 1) * out
      of the one big product are layer l's own kv output, and its halves k and v. */
  lemma StackedContext(env: Env, kvs: seq<Layer>, x: Row, out: nat, l: nat)
    requires Compatible(kvs) && BiasKept(kvs) && l < |kvs|
    requires forall j :: 0 <= j < |kvs| ==> |kvs[j].weight| == out
    ensures Proper(CatRows(kvs)) && Proper(kvs[l]) && l * out <= (l + 1) * out <= |CatRows(kvs).weight|
    ensures Forward(env, CatRows(kvs), x)[l * out..(l + 1) * out] == Forward(env, kvs[l], x)
  {
    hide Compatible, BiasKept, CatRows, Forward;
    CatProper(kvs);
    ProperParts(kvs);
    EvenBefore(kvs, out, l);
    EvenBefore(kvs, out, l + 1);
    BeforeMono(kvs, l, l + 1);
    BeforeMono(kvs, l + 1, |kvs|);
    SliceFaithful(env, kvs, x, l);
  }
}
