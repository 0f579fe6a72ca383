/**
 Request frames between gateway and worker (protocol.py, and finalize in main.cpp): a
 JSON header that describes the tensors, and their bytes inline or in a shared-memory
 slot.  json.dumps and json.loads are parameters.
 */
module Protocol {
  import opened Wrappers
  import opened Shapes
  import opened Json
  import opened JsonMaps
  import opened Framing

  datatype Tensor = Tensor(shape: seq<nat>, dtype: string, data: Bytes)

  /** Size of an element of a known dtype, 0 for any other. */
  function ItemSize(dtype: string): nat
  {
    if dtype == "float32" || dtype == "int32" then 4
    else if dtype == "float64" || dtype == "int64" then 8
    else if dtype == "uint8" then 1
    else 0
  }

  predicate Known(dtype: string)
  {
    ItemSize(dtype) > 0
  }

  /** A contiguous array: as many bytes as its shape and dtype say. */
  predicate Contiguous(t: Tensor)
  {
    Known(t.dtype) ==> |t.data| == Numel(t.shape) * ItemSize(t.dtype)
  }

  type Named = seq<Member<Tensor>>

  /** A dictionary of arrays, in insertion order. */
  ghost predicate Dictionary(ts: Named)
  {
    && (forall i, j :: 0 <= i < j < |ts| ==> ts[i].key != ts[j].key)
    && (forall m <- ts :: Contiguous(m.value))
  }

  function AsMap(ts: Named): map<string, Tensor>
  {
    if ts == [] then map[] else map[ts[0].key := ts[0].value] + AsMap(ts[1..])
  }

  // ---------------------------------------------------------------- layout

  datatype Spec = Spec(shape: seq<nat>, dtype: string, offset: nat, nbytes: nat)

  function Payload(ts: Named): Bytes
  {
    if ts == [] then [] else ts[0].value.data + Payload(ts[1..])
  }

  /** The offsets are the running sum of the sizes before. */
  function Offset(ts: Named, i: nat): nat
    requires i <= |ts|
  {
    if i == 0 then 0 else Offset(ts, i - 1) + |ts[i - 1].value.data|
  }

  function SpecAt(ts: Named, i: nat): Spec
    requires i < |ts|
  {
    var t := ts[i].value;
    Spec(t.shape, t.dtype, Offset(ts, i), |t.data|)
  }

  function Specs(ts: Named): (r: seq<Member<Spec>>)
    ensures |r| == |ts|
  {
    seq(|ts|, i requires 0 <= i < |ts| => Member(ts[i].key, SpecAt(ts, i)))
  }

  lemma {:induction false} PayloadLength(ts: Named)
    ensures |Payload(ts)| == Offset(ts, |ts|)
  {
    if ts != [] {
      PayloadLength(ts[1..]);
      OffsetTail(ts, |ts|);
    }
  }

  lemma {:induction false} OffsetTail(ts: Named, i: nat)
    requires 0 < i <= |ts|
    ensures Offset(ts, i) == |ts[0].value.data| + Offset(ts[1..], i - 1)
  {
    if i > 1 { OffsetTail(ts, i - 1); }
  }

  /** The ranges follow each other without gap or overlap and end with the payload. */
  lemma {:induction false} RangesTile(ts: Named, i: nat, j: nat)
    requires i < j <= |ts|
    ensures Offset(ts, i) + |ts[i].value.data| <= Offset(ts, j) <= |Payload(ts)|
    ensures j == i + 1 ==> Offset(ts, i) + |ts[i].value.data| == Offset(ts, j)
    ensures j == |ts| ==> Offset(ts, j) == |Payload(ts)|
    decreases |ts| - j, j
  {
    if j == |ts| {
      PayloadLength(ts);
      OffsetGrows(ts, i + 1, j);
    } else {
      RangesTile(ts, i, j + 1);
      OffsetGrows(ts, i + 1, j);
    }
  }

  lemma {:induction false} OffsetGrows(ts: Named, i: nat, j: nat)
    requires i <= j <= |ts|
    ensures Offset(ts, i) <= Offset(ts, j)
  {
    if i < j { OffsetGrows(ts, i, j - 1); }
  }

  /** Each tensor's range of the payload holds its bytes. */
  lemma {:induction false} PayloadSlice(ts: Named, i: nat)
    requires i < |ts|
    ensures Offset(ts, i) + |ts[i].value.data| <= |Payload(ts)|
    ensures Payload(ts)[Offset(ts, i)..Offset(ts, i) + |ts[i].value.data|] == ts[i].value.data
    decreases i
  {
    var p, d := Payload(ts), ts[0].value.data;
    RangesTile(ts, i, i + 1);
    if i > 0 {
      PayloadSlice(ts[1..], i - 1);
      OffsetTail(ts, i);
      var k := Offset(ts[1..], i - 1);
      assert p[|d| + k..|d| + k + |ts[i].value.data|] == Payload(ts[1..])[k..k + |ts[i].value.data|];
    }
  }

  // ---------------------------------------------------------------- headers

  function ShapeJson(shape: seq<nat>): Value
  {
    Arr(seq(|shape|, i requires 0 <= i < |shape| => Num(shape[i])))
  }

  function SpecJson(s: Spec): Value
  {
    Obj([Member("dtype", Str(s.dtype)), Member("nbytes", Num(s.nbytes)),
         Member("offset", Num(s.offset)), Member("shape", ShapeJson(s.shape))])
  }

  function SpecMembers(ts: Named): (r: seq<Member<Value>>)
    ensures |r| == |ts|
  {
    seq(|ts|, i requires 0 <= i < |ts| => Member(ts[i].key, SpecJson(SpecAt(ts, i))))
  }

  /** What a request says besides its tensors. */
  datatype Info = Info(id: string, mode: string, task: string, noise: Option<string>, quantized: bool)

  function NoiseJson(noise: Option<string>): Value
  {
    match noise case None => Null case Some(s) => Str(s)
  }

  /** encode_request's header with the payload inline (rtc is embedded as it is). */
  function InlineHeader(info: Info, ts: Named, rtc: Value): Value
  {
    Obj([Member("id", Str(info.id)), Member("type", Str("infer")), Member("mode", Str(info.mode)),
         Member("task", Str(info.task)), Member("noise", NoiseJson(info.noise)),
         Member("quantized_images", Bool(info.quantized)), Member("tensors", Obj(SpecMembers(ts))),
         Member("rtc", rtc)])
  }

  /** ... and with the payload in a slot. */
  function SlotHeader(info: Info, ts: Named, rtc: Value, slot: nat): Value
  {
    Obj([Member("id", Str(info.id)), Member("type", Str("infer")), Member("mode", Str(info.mode)),
         Member("task", Str(info.task)), Member("noise", NoiseJson(info.noise)),
         Member("quantized_images", Bool(info.quantized)), Member("tensors", Obj(SpecMembers(ts))),
         Member("shm", Obj([Member("slot", Num(slot))]))] +
        if rtc.Null? then [] else [Member("rtc", rtc)])
  }

  /** finalize's header: std::map sorts the keys, those of the tensors included. */
  function CppHeader(info: Info, ts: Named): Value
  {
    Obj(InsertAll([], [Member("id", Str(info.id)), Member("type", Str("infer")), Member("mode", Str(info.mode)),
                       Member("task", Str(info.task)), Member("noise", NoiseJson(info.noise)),
                       Member("quantized_images", Bool(false)),
                       Member("tensors", Obj(InsertAll([], SpecMembers(ts))))]))
  }

  // ---------------------------------------------------------------- decoding

  function Get(v: Value, key: string): Option<Value>
  {
    if v.Obj? then Find(v.members, key) else None
  }

  function GetString(v: Value, key: string): Option<string>
  {
    var f := Get(v, key);
    if f.Some? && f.value.Str? then Some(f.value.s) else None
  }

  function GetNat(v: Value, key: string): Option<nat>
  {
    var f := Get(v, key);
    if f.Some? && f.value.Num? && f.value.n >= 0 then Some(f.value.n) else None
  }

  function Default(s: Option<string>, default: string): string
  {
    if s.Some? then s.value else default
  }

  predicate IsShape(v: Value)
  {
    v.Arr? && forall i :: 0 <= i < |v.items| ==> v.items[i].Num? && v.items[i].n >= 0
  }

  function ShapeOf(v: Value): seq<nat>
    requires IsShape(v)
  {
    seq(|v.items|, i requires 0 <= i < |v.items| => v.items[i].n)
  }

  /** numpy.frombuffer: count elements of the dtype from an offset into the buffer. */
  function FromBuffer(buffer: Bytes, dtype: string, count: nat, offset: nat): Result<Bytes>
  {
    if offset + count * ItemSize(dtype) > |buffer| then Failure("buffer is smaller than requested size")
    else Success(buffer[offset..offset + count * ItemSize(dtype)])
  }

  function DecodeTensor(spec: Value, buffer: Bytes, base: nat): Result<Tensor>
  {
    var dtype, shape, start := GetString(spec, "dtype"), Get(spec, "shape"), GetNat(spec, "offset");
    if dtype.None? then Failure("missing dtype")
    else if !Known(dtype.value) then Failure("unsupported dtype")
    else if start.None? then Failure("missing offset")
    else if shape.None? || !IsShape(shape.value) then Failure("missing shape")
    else
      var dims := ShapeOf(shape.value);
      match FromBuffer(buffer, dtype.value, Numel(dims), base + start.value)
      case Success(data) => Success(Tensor(dims, dtype.value, data))
      case Failure(e) => Failure(e)
  }

  function DecodeTensors(specs: seq<Member<Value>>, buffer: Bytes, base: nat): Result<map<string, Tensor>>
  {
    if specs == [] then Success(map[])
    else
      match DecodeTensor(specs[0].value, buffer, base)
      case Failure(e) => Failure(e)
      case Success(t) =>
        match DecodeTensors(specs[1..], buffer, base)
        case Failure(e) => Failure(e)
        case Success(rest) => Success(map[specs[0].key := t] + rest)
  }

  /** The shared region: all its bytes, and the size of a slot. */
  datatype Region = Region(bytes: Bytes, slotBytes: nat)

  function SlotStart(slot: nat, slotBytes: nat): nat
  {
    slot * slotBytes
  }

  predicate UsesSlot(header: Value)
  {
    var shm := Get(header, "shm");
    shm.Some? && !shm.value.Null?
  }

  function TensorSpecs(header: Value): seq<Member<Value>>
  {
    var t := Get(header, "tensors");
    if t.Some? && t.value.Obj? then t.value.members else []
  }

  function DecodeInfo(header: Value): Info
  {
    var quantized := Get(header, "quantized_images");
    Info(Default(GetString(header, "id"), ""), Default(GetString(header, "mode"), "select_action"),
      Default(GetString(header, "task"), ""), GetString(header, "noise"),
      quantized.Some? && quantized.value == Bool(true))
  }

  function WithInfo(header: Value, r: Result<map<string, Tensor>>): Result<(Info, map<string, Tensor>)>
  {
    match r
    case Success(tensors) => Success((DecodeInfo(header), tensors))
    case Failure(e) => Failure(e)
  }

  /** The tensors are in the frame after its header, or in a slot of the region. */
  function DecodeHeader(frame: Bytes, header: Value, shm: Option<Region>): Result<(Info, map<string, Tensor>)>
    requires |frame| >= PREFIX
  {
    if !UsesSlot(header) then
      WithInfo(header, DecodeTensors(TensorSpecs(header), frame, PREFIX + HeaderLength(frame)))
    else if shm.None? then Failure("frame requires the shared-memory region")
    else
      var slot := GetNat(Get(header, "shm").value, "slot");
      if slot.None? then Failure("missing slot")
      else WithInfo(header, DecodeTensors(TensorSpecs(header), shm.value.bytes,
        SlotStart(slot.value, shm.value.slotBytes)))
  }

  function DecodeRequest(frame: Bytes, loads: Bytes -> Option<Value>, shm: Option<Region>)
    : Result<(Info, map<string, Tensor>)>
  {
    if |frame| < PREFIX then Failure("frame too short")
    else if HeaderLength(frame) > MAX_HEADER then Failure("header too large")
    else if TotalLength(frame) != |frame| then Failure("frame length mismatch")
    else if PREFIX + HeaderLength(frame) > |frame| then Failure("bad header")
    else
      match loads(frame[PREFIX..PREFIX + HeaderLength(frame)])
      case None => Failure("bad header")
      case Some(header) => DecodeHeader(frame, header, shm)
  }

  // ---------------------------------------------------------------- decode inverts encode

  ghost predicate AllKnown(ts: Named)
  {
    forall m <- ts :: Known(m.value.dtype)
  }

  /** The payload is in the buffer from byte `base` on. */
  ghost predicate Holds(buffer: Bytes, base: nat, payload: Bytes)
  {
    base + |payload| <= |buffer| && buffer[base..base + |payload|] == payload
  }

  lemma SpecFields(s: Spec)
    ensures var v := SpecJson(s);
            && GetString(v, "dtype") == Some(s.dtype) && GetNat(v, "offset") == Some(s.offset)
            && Get(v, "shape") == Some(ShapeJson(s.shape))
  {
    var ms := SpecJson(s).members;
    assert ms[1..][0].key == "nbytes" && ms[1..][1..][0].key == "offset" && ms[1..][1..][1..][0].key == "shape";
    assert Find(ms, "offset") == Find(ms[1..], "offset") == Find(ms[1..][1..], "offset");
    assert Find(ms, "shape") == Find(ms[1..], "shape") == Find(ms[1..][1..], "shape") ==
      Find(ms[1..][1..][1..], "shape");
  }

  lemma ShapeRoundTrip(shape: seq<nat>)
    ensures IsShape(ShapeJson(shape)) && ShapeOf(ShapeJson(shape)) == shape
  {
  }

  lemma HeldSlice(buffer: Bytes, base: nat, payload: Bytes, k: nat, n: nat)
    requires Holds(buffer, base, payload) && k + n <= |payload|
    ensures buffer[base + k..base + k + n] == payload[k..k + n]
  {
    var a, b := buffer[base + k..base + k + n], payload[k..k + n];
    forall i | 0 <= i < n
      ensures a[i] == b[i]
    {
      assert b[i] == payload[k + i] == buffer[base..base + |payload|][k + i];
    }
  }

  lemma SpecDecodes(v: Value, t: Tensor, shape: Value, start: nat, buffer: Bytes, base: nat)
    requires GetString(v, "dtype") == Some(t.dtype) && Get(v, "shape") == Some(shape) &&
              GetNat(v, "offset") == Some(start)
    requires IsShape(shape) && ShapeOf(shape) == t.shape && Known(t.dtype)
    requires FromBuffer(buffer, t.dtype, Numel(t.shape), base + start) == Success(t.data)
    ensures DecodeTensor(v, buffer, base) == Success(t)
  {
    hide Get, GetString, GetNat, IsShape, ShapeOf, FromBuffer, Numel, ItemSize;
  }

  lemma TensorDecodes(ts: Named, i: nat, buffer: Bytes, base: nat)
    requires i < |ts| && Contiguous(ts[i].value) && Known(ts[i].value.dtype) && Holds(buffer, base, Payload(ts))
    ensures DecodeTensor(SpecJson(SpecAt(ts, i)), buffer, base) == Success(ts[i].value)
  {
    hide Payload, SpecJson, ShapeJson, Get, GetString, GetNat, ItemSize, Numel, IsShape, ShapeOf, Offset, Holds,
      DecodeTensor, FromBuffer, Contiguous;
    var t, k := ts[i].value, Offset(ts, i);
    SpecFields(SpecAt(ts, i));
    ShapeRoundTrip(t.shape);
    PayloadSlice(ts, i);
    HeldBounds(buffer, base, Payload(ts));
    HeldSlice(buffer, base, Payload(ts), k, |t.data|);
    BufferHolds(buffer, t, base + k);
    SpecDecodes(SpecJson(SpecAt(ts, i)), t, ShapeJson(t.shape), k, buffer, base);
  }

  lemma BufferHolds(buffer: Bytes, t: Tensor, at: nat)
    requires Contiguous(t) && Known(t.dtype)
    requires at + |t.data| <= |buffer| && buffer[at..at + |t.data|] == t.data
    ensures FromBuffer(buffer, t.dtype, Numel(t.shape), at) == Success(t.data)
  {
    hide Numel, ItemSize;
  }

  lemma HeldBounds(buffer: Bytes, base: nat, payload: Bytes)
    requires Holds(buffer, base, payload)
    ensures base + |payload| <= |buffer|
  {
  }

  ghost predicate IsSpecOf(m: Member<Value>, ts: Named, i: nat)
  {
    i < |ts| && m == Member(ts[i].key, SpecJson(SpecAt(ts, i)))
  }

  function Keys<T>(ms: seq<Member<T>>): set<string>
  {
    set i | 0 <= i < |ms| :: ms[i].key
  }

  /** The specs, in any order, are those of ts. */
  ghost predicate Describes(specs: seq<Member<Value>>, ts: Named)
  {
    (forall m <- specs :: exists i: nat :: IsSpecOf(m, ts, i)) && Keys(specs) == Keys(ts)
  }

  lemma KeysCons<T>(ms: seq<Member<T>>)
    requires ms != []
    ensures Keys(ms) == {ms[0].key} + Keys(ms[1..])
  {
    forall k
      ensures k in Keys(ms) <==> k == ms[0].key || k in Keys(ms[1..])
    {
      if k in Keys(ms) {
        var i :| 0 <= i < |ms| && ms[i].key == k;
        if i > 0 { assert ms[1..][i - 1].key == k; }
      }
      if k in Keys(ms[1..]) {
        var i :| 0 <= i < |ms[1..]| && ms[1..][i].key == k;
        assert ms[i + 1].key == k;
      }
    }
  }

  lemma {:induction false} SpecsDecode(specs: seq<Member<Value>>, ts: Named, buffer: Bytes, base: nat)
    requires Dictionary(ts) && AllKnown(ts) && Holds(buffer, base, Payload(ts))
    requires forall m <- specs :: exists i: nat :: IsSpecOf(m, ts, i)
    ensures var r := DecodeTensors(specs, buffer, base);
            && r.Success? && r.value.Keys == Keys(specs)
            && (forall i :: 0 <= i < |ts| && ts[i].key in r.value ==> r.value[ts[i].key] == ts[i].value)
  {
    hide DecodeTensor, Payload, SpecJson, Contiguous, Holds, Keys, SpecAt;
    if specs == [] {
      NoKeys();
    } else {
      assert specs[0] in specs && forall m <- specs[1..] :: m in specs;
      var j: nat :| IsSpecOf(specs[0], ts, j);
      assert ts[j] in ts;
      TensorDecodes(ts, j, buffer, base);
      SpecsDecode(specs[1..], ts, buffer, base);
      KeysCons(specs);
      var rest := DecodeTensors(specs[1..], buffer, base).value;
      assert DecodeTensors(specs, buffer, base) == Success(map[specs[0].key := ts[j].value] + rest);
    }
  }

  lemma NoKeys()
    ensures Keys<Value>([]) == {} && Keys<Tensor>([]) == {}
  {
  }

  lemma {:induction false} AsMapIs(ts: Named)
    requires forall i, j :: 0 <= i < j < |ts| ==> ts[i].key != ts[j].key
    ensures AsMap(ts).Keys == Keys(ts)
    ensures forall i :: 0 <= i < |ts| ==> ts[i].key in AsMap(ts) && AsMap(ts)[ts[i].key] == ts[i].value
  {
    hide Keys;
    if ts == [] {
      NoKeys();
    } else {
      AsMapIs(ts[1..]);
      KeysCons(ts);
      NotLater(ts);
      forall i | 0 <= i < |ts|
        ensures ts[i].key in AsMap(ts) && AsMap(ts)[ts[i].key] == ts[i].value
      {
        if i > 0 { assert ts[1..][i - 1] == ts[i]; }
      }
    }
  }

  lemma NotLater(ts: Named)
    requires ts != [] && forall i, j :: 0 <= i < j < |ts| ==> ts[i].key != ts[j].key
    ensures ts[0].key !in Keys(ts[1..])
  {
    assert forall i :: 0 <= i < |ts[1..]| ==> ts[1..][i] == ts[i + 1];
  }

  lemma KeyAt(ts: Named, k: string) returns (i: nat)
    requires k in Keys(ts)
    ensures i < |ts| && ts[i].key == k
  {
    i :| i < |ts| && ts[i].key == k;
  }

  /** Tensors decode to what was encoded, whatever order the header lists them in. */
  lemma TensorsDecode(specs: seq<Member<Value>>, ts: Named, buffer: Bytes, base: nat)
    requires Dictionary(ts) && AllKnown(ts) && Holds(buffer, base, Payload(ts)) && Describes(specs, ts)
    ensures DecodeTensors(specs, buffer, base) == Success(AsMap(ts))
  {
    hide DecodeTensors, Payload, AsMap, Holds, Keys, IsSpecOf;
    SpecsDecode(specs, ts, buffer, base);
    AsMapIs(ts);
    var r := DecodeTensors(specs, buffer, base).value;
    forall k | k in r
      ensures r[k] == AsMap(ts)[k]
    {
      var i := KeyAt(ts, k);
    }
    assert r == AsMap(ts);
  }

  lemma SpecMembersAre(ts: Named)
    ensures forall m <- SpecMembers(ts) :: exists i: nat :: IsSpecOf(m, ts, i)
    ensures Keys(SpecMembers(ts)) == Keys(ts)
  {
    hide SpecJson, SpecAt;
    var ms := SpecMembers(ts);
    forall m | m in ms
      ensures exists i: nat :: IsSpecOf(m, ts, i)
    {
      var i: nat :| i < |ms| && ms[i] == m;
      assert IsSpecOf(m, ts, i);
    }
    forall k
      ensures k in Keys(ms) <==> k in Keys(ts)
    {
      if k in Keys(ms) {
        var i :| 0 <= i < |ms| && ms[i].key == k;
        assert ts[i].key == k;
      }
      if k in Keys(ts) {
        var i := KeyAt(ts, k);
        assert ms[i].key == k;
      }
    }
  }

  lemma DescribedInOrder(ts: Named)
    ensures Describes(SpecMembers(ts), ts)
  {
    hide SpecMembers, Keys;
    SpecMembersAre(ts);
  }

  lemma {:induction false} InsertAllMember<T>(acc: seq<Member<T>>, ms: seq<Member<T>>, m: Member<T>)
    requires m in InsertAll(acc, ms)
    ensures m in acc || m in ms
    decreases |ms|
  {
    hide Insert;
    if ms != [] {
      InsertAllMember(Insert(acc, ms[0].key, ms[0].value), ms[1..], m);
      if m !in ms[1..] { InsertIs(acc, ms[0], m); }
    }
  }

  lemma {:induction false} InsertIs<T>(ms: seq<Member<T>>, added: Member<T>, m: Member<T>)
    requires m in Insert(ms, added.key, added.value)
    ensures m == added || m in ms
  {
    hide Less;
    if ms != [] && !Less(added.key, ms[0].key) && ms[0].key != added.key && m != ms[0] { InsertIs(ms[1..], added, m); }
  }

  lemma {:induction false} InsertKeys<T>(ms: seq<Member<T>>, key: string, v: T)
    ensures Keys(Insert(ms, key, v)) == Keys(ms) + {key}
  {
    hide Less;
    if ms == [] || Less(key, ms[0].key) {
      KeysCons([Member(key, v)] + ms);
    } else {
      KeysCons(ms);
      KeysCons(Insert(ms, key, v));
      if ms[0].key != key { InsertKeys(ms[1..], key, v); }
    }
  }

  lemma {:induction false} InsertAllKeys<T>(acc: seq<Member<T>>, ms: seq<Member<T>>)
    ensures Keys(InsertAll(acc, ms)) == Keys(acc) + Keys(ms)
    decreases |ms|
  {
    hide Insert;
    if ms != [] {
      InsertAllKeys(Insert(acc, ms[0].key, ms[0].value), ms[1..]);
      InsertKeys(acc, ms[0].key, ms[0].value);
      KeysCons(ms);
    }
  }

  /** Sorting the names of the tensors does not change what they describe. */
  lemma DescribedSorted(ts: Named)
    ensures Describes(InsertAll([], SpecMembers(ts)), ts)
  {
    hide SpecMembers, Keys, InsertAll, IsSpecOf;
    var specs, sorted := SpecMembers(ts), InsertAll([], SpecMembers(ts));
    SpecMembersAre(ts);
    forall m | m in sorted
      ensures m in specs
    {
      InsertAllMember([], specs, m);
    }
    InsertAllKeys([], specs);
    NoKeys();
  }

  // ---------------------------------------------------------------- whole requests

  lemma InlineFields(info: Info, ts: Named, rtc: Value)
    ensures var h := InlineHeader(info, ts, rtc);
            && DecodeInfo(h) == info && TensorSpecs(h) == SpecMembers(ts) && !UsesSlot(h)
            && Get(h, "type") == Some(Str("infer")) && Get(h, "rtc") == Some(rtc)
  {
    hide SpecMembers;
    FirstFields(info, SpecMembers(ts), [Member("rtc", rtc)]);
    var h := InlineHeader(info, ts, rtc);
    assert h.members == CommonFields(info, SpecMembers(ts)) + [Member("rtc", rtc)];
    assert [Member("rtc", rtc)][1..] == [];
    assert Find([Member("rtc", rtc)], "shm") == None;
  }

  function CommonFields(info: Info, specs: seq<Member<Value>>): seq<Member<Value>>
  {
    [Member("id", Str(info.id)), Member("type", Str("infer")), Member("mode", Str(info.mode)),
     Member("task", Str(info.task)), Member("noise", NoiseJson(info.noise)),
     Member("quantized_images", Bool(info.quantized)), Member("tensors", Obj(specs))]
  }

  lemma {:induction false} FindAppend<T>(a: seq<Member<T>>, b: seq<Member<T>>, key: string)
    ensures Find(a + b, key) == if Find(a, key).Some? then Find(a, key) else Find(b, key)
  {
    if a == [] {
      assert a + b == b;
    } else {
      assert (a + b)[1..] == a[1..] + b;
      FindAppend(a[1..], b, key);
    }
  }

  lemma {:induction false} FindFirst<T>(ms: seq<Member<T>>, i: nat)
    requires i < |ms| && forall j :: 0 <= j < i ==> ms[j].key != ms[i].key
    ensures Find(ms, ms[i].key) == Some(ms[i].value)
  {
    if i > 0 {
      assert ms[1..][i - 1] == ms[i];
      FindFirst(ms[1..], i - 1);
    }
  }

  lemma {:induction false} FindNowhere<T>(ms: seq<Member<T>>, key: string)
    requires forall j :: 0 <= j < |ms| ==> ms[j].key != key
    ensures Find(ms, key) == None
  {
    if ms != [] { FindNowhere(ms[1..], key); }
  }

  lemma InfoDecodes(h: Value, info: Info)
    requires Get(h, "id") == Some(Str(info.id)) && Get(h, "mode") == Some(Str(info.mode))
    requires Get(h, "task") == Some(Str(info.task)) && Get(h, "noise") == Some(NoiseJson(info.noise))
    requires Get(h, "quantized_images") == Some(Bool(info.quantized))
    ensures DecodeInfo(h) == info
  {
    hide Get;
  }

  lemma FirstFields(info: Info, specs: seq<Member<Value>>, more: seq<Member<Value>>)
    ensures var h := Obj(CommonFields(info, specs) + more);
            && DecodeInfo(h) == info && TensorSpecs(h) == specs && Get(h, "type") == Some(Str("infer"))
            && Get(h, "shm") == Find(more, "shm") && Get(h, "rtc") == Find(more, "rtc")
  {
    hide Find, NoiseJson, DecodeInfo;
    var ms := CommonFields(info, specs);
    forall i | 0 <= i < 7
      ensures Find(ms + more, ms[i].key) == Some(ms[i].value)
    {
      FindFirst(ms, i);
      FindAppend(ms, more, ms[i].key);
    }
    assert ms[0].key == "id" && ms[1].key == "type" && ms[2].key == "mode" && ms[3].key == "task";
    assert ms[4].key == "noise" && ms[5].key == "quantized_images" && ms[6].key == "tensors";
    InfoDecodes(Obj(ms + more), info);
    FindNowhere(ms, "shm");
    FindAppend(ms, more, "shm");
    FindNowhere(ms, "rtc");
    FindAppend(ms, more, "rtc");
  }

  lemma SlotFields(info: Info, ts: Named, rtc: Value, slot: nat)
    ensures var h := SlotHeader(info, ts, rtc, slot);
            && DecodeInfo(h) == info && TensorSpecs(h) == SpecMembers(ts)
            && UsesSlot(h) && GetNat(Get(h, "shm").value, "slot") == Some(slot)
            && Get(h, "type") == Some(Str("infer")) && Get(h, "rtc") == if rtc.Null? then None else Some(rtc)
  {
    hide SpecMembers;
    var shm := Member("shm", Obj([Member("slot", Num(slot))]));
    var more := [shm] + if rtc.Null? then [] else [Member("rtc", rtc)];
    FirstFields(info, SpecMembers(ts), more);
    assert SlotHeader(info, ts, rtc, slot).members == CommonFields(info, SpecMembers(ts)) + more;
    assert more[0] == shm;
  }

  /** decode_request inverts encode_request when the payload is inline. */
  lemma InlineRoundTrip(info: Info, ts: Named, rtc: Value, header: Bytes, loads: Bytes -> Option<Value>,
      shm: Option<Region>)
    requires Dictionary(ts) && AllKnown(ts) && |header| <= MAX_HEADER
    requires loads(header) == Some(InlineHeader(info, ts, rtc))
    requires PREFIX + |header| + |Payload(ts)| < 0x1_0000_0000
    ensures DecodeRequest(Pack(header, Payload(ts)), loads, shm) == Success((info, AsMap(ts)))
  {
    hide DecodeTensors, Pack, InlineHeader, Payload, AsMap, Describes, HeaderLength, TotalLength;
    var f, p := Pack(header, Payload(ts)), PREFIX + |header|;
    PackLengths(header, Payload(ts));
    InlineFields(info, ts, rtc);
    DescribedInOrder(ts);
    PayloadHeld(f, p, Payload(ts));
    TensorsDecode(SpecMembers(ts), ts, f, p);
  }

  lemma PayloadHeld(frame: Bytes, base: nat, payload: Bytes)
    requires base <= |frame| && frame[base..] == payload
    ensures Holds(frame, base, payload)
  {
  }

  /** ... and when it is in a slot that still holds it. */
  lemma SlotRoundTrip(info: Info, ts: Named, rtc: Value, slot: nat, header: Bytes, loads: Bytes -> Option<Value>,
      region: Region)
    requires Dictionary(ts) && AllKnown(ts) && |header| <= MAX_HEADER
    requires loads(header) == Some(SlotHeader(info, ts, rtc, slot))
    requires Holds(region.bytes, SlotStart(slot, region.slotBytes), Payload(ts))
    ensures DecodeRequest(Pack(header, []), loads, Some(region)) == Success((info, AsMap(ts)))
  {
    hide DecodeTensors, Pack, SlotHeader, Payload, AsMap, Describes, HeaderLength, TotalLength, Holds, SlotStart;
    PackLengths(header, []);
    SlotFields(info, ts, rtc, slot);
    DescribedInOrder(ts);
    TensorsDecode(SpecMembers(ts), ts, region.bytes, SlotStart(slot, region.slotBytes));
  }

  /** A frame that needs the region is refused by a worker without one. */
  lemma SlotWithoutRegion(info: Info, ts: Named, rtc: Value, slot: nat, header: Bytes, loads: Bytes -> Option<Value>)
    requires |header| <= MAX_HEADER && loads(header) == Some(SlotHeader(info, ts, rtc, slot))
    ensures DecodeRequest(Pack(header, []), loads, None) == Failure("frame requires the shared-memory region")
  {
    hide DecodeTensors, Pack, SlotHeader, HeaderLength, TotalLength;
    PackLengths(header, []);
    SlotFields(info, ts, rtc, slot);
  }

  // ---------------------------------------------------------------- the C++ gateway

  function CppFields(info: Info, ts: Named): seq<Member<Value>>
  {
    [Member("id", Str(info.id)), Member("type", Str("infer")), Member("mode", Str(info.mode)),
     Member("task", Str(info.task)), Member("noise", NoiseJson(info.noise)),
     Member("quantized_images", Bool(false)), Member("tensors", Obj(InsertAll([], SpecMembers(ts))))]
  }

  lemma CppHeaderFields(info: Info, ts: Named)
    requires !info.quantized
    ensures var h := CppHeader(info, ts);
            && DecodeInfo(h) == info && TensorSpecs(h) == InsertAll([], SpecMembers(ts)) && !UsesSlot(h)
            && Get(h, "type") == Some(Str("infer")) && Get(h, "rtc") == None
  {
    hide Find, InsertAll, SpecMembers, NoiseJson, DecodeInfo;
    var ms := CppFields(info, ts);
    forall i | 0 <= i < 7
      ensures Find(InsertAll([], ms), ms[i].key) == Some(ms[i].value)
    {
      FindInsertAll([], ms, ms[i].key);
      BoundOnce(ms, i, 7);
    }
    assert ms[0].key == "id" && ms[1].key == "type" && ms[2].key == "mode" && ms[3].key == "task";
    assert ms[4].key == "noise" && ms[5].key == "quantized_images" && ms[6].key == "tensors";
    InfoDecodes(CppHeader(info, ts), info);
    FindInsertAll([], ms, "shm");
    Unbound(ms, "shm");
    FindInsertAll([], ms, "rtc");
    Unbound(ms, "rtc");
  }

  lemma {:induction false} Unbound<T>(ms: seq<Member<T>>, key: string)
    requires forall i :: 0 <= i < |ms| ==> ms[i].key != key
    ensures Binding([], ms, key) == None
    decreases |ms|
  {
    if ms != [] { Unbound(ms[..|ms| - 1], key); }
  }

  /** The C++ gateway's frame decodes to the same tensors, although its keys are sorted. */
  lemma CppRoundTrip(info: Info, ts: Named, header: Bytes, loads: Bytes -> Option<Value>, shm: Option<Region>)
    requires Dictionary(ts) && AllKnown(ts) && |header| <= MAX_HEADER && !info.quantized
    requires loads(header) == Some(CppHeader(info, ts))
    requires PREFIX + |header| + |Payload(ts)| < 0x1_0000_0000
    ensures DecodeRequest(Pack(header, Payload(ts)), loads, shm) == Success((info, AsMap(ts)))
  {
    hide DecodeTensors, Pack, CppHeader, Payload, AsMap, Describes, HeaderLength, TotalLength, InsertAll;
    var f, p := Pack(header, Payload(ts)), PREFIX + |header|;
    PackLengths(header, Payload(ts));
    CppHeaderFields(info, ts);
    DescribedSorted(ts);
    PayloadHeld(f, p, Payload(ts));
    TensorsDecode(InsertAll([], SpecMembers(ts)), ts, f, p);
  }
}
