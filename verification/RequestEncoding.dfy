/**
 encode_request as it runs: a layout pass over the arrays, then their bytes copied to a
 running offset of a new buffer or of a slot of the shared region.  What it produces
 decodes to what it was given, by either transport.
 */
module RequestEncoding {
  import opened Wrappers
  import opened Json
  import opened JsonMaps
  import opened JsonRoundTrip
  import opened Framing
  import opened Protocol

  function Prepared(ts: Named): (r: seq<Bytes>)
    ensures |r| == |ts|
  {
    seq(|ts|, i requires 0 <= i < |ts| => ts[i].value.data)
  }

  /** The layout pass: specs, contiguous arrays and total size, or the first bad dtype. */
  method TensorLayout(ts: Named) returns (ok: bool, specs: seq<Member<Spec>>, prep: seq<Bytes>, offset: nat)
    ensures ok <==> AllKnown(ts)
    ensures ok ==> specs == Specs(ts) && prep == Prepared(ts) && offset == |Payload(ts)|
  {
    hide Known;
    specs, prep, offset := [], [], 0;
    var i := 0;
    while i < |ts|
      invariant 0 <= i <= |ts| && offset == Offset(ts, i)
      invariant specs == Specs(ts)[..i] && prep == Prepared(ts)[..i]
      invariant forall j :: 0 <= j < i ==> Known(ts[j].value.dtype)
    {
      var t := ts[i].value;
      if !Known(t.dtype) {
        assert ts[i] in ts;
        return false, specs, prep, offset;
      }
      specs := specs + [Member(ts[i].key, Spec(t.shape, t.dtype, offset, |t.data|))];
      prep := prep + [t.data];
      offset := offset + |t.data|;
      i := i + 1;
    }
    PayloadLength(ts);
    ok := true;
  }

  lemma {:induction false} PayloadIsConcat(ts: Named)
    ensures Concat(Prepared(ts)) == Payload(ts)
  {
    if ts != [] {
      PayloadIsConcat(ts[1..]);
      assert Prepared(ts)[1..] == Prepared(ts[1..]);
    }
  }

  lemma {:induction false} ConcatAppend(parts: seq<Bytes>, last: Bytes)
    ensures Concat(parts + [last]) == Concat(parts) + last
  {
    if parts == [] {
      assert ([] + [last])[1..] == [];
      assert last + [] == last && [] + last == last;
    } else {
      assert (parts + [last])[1..] == parts[1..] + [last];
      ConcatAppend(parts[1..], last);
      assert parts[0] + (Concat(parts[1..]) + last) == parts[0] + Concat(parts[1..]) + last;
    }
  }

  lemma {:induction false} ConcatPrefix(parts: seq<Bytes>, i: nat)
    requires i < |parts|
    ensures |Concat(parts[..i])| + |parts[i]| <= |Concat(parts)|
    decreases |parts|
  {
    if i > 0 {
      ConcatPrefix(parts[1..], i - 1);
      assert parts[..i][1..] == parts[1..][..i - 1];
    }
  }

  /** a with `bytes` written over it from byte `at` on. */
  function Written(a: Bytes, at: nat, bytes: Bytes): Bytes
    requires at + |bytes| <= |a|
  {
    a[..at] + bytes + a[at + |bytes|..]
  }

  method CopyBytes(dst: array<Byte>, at: nat, bytes: Bytes)
    requires at + |bytes| <= dst.Length
    modifies dst
    ensures dst[..] == Written(old(dst[..]), at, bytes)
  {
    var i := 0;
    while i < |bytes|
      invariant 0 <= i <= |bytes|
      invariant forall k :: 0 <= k < dst.Length ==>
        dst[k] == if at <= k < at + i then bytes[k - at] else old(dst[k])
    {
      dst[at + i] := bytes[i];
      i := i + 1;
    }
  }

  lemma WrittenTwice(a: Bytes, at: nat, x: Bytes, y: Bytes)
    requires at + |x| + |y| <= |a|
    ensures Written(Written(a, at, x), at + |x|, y) == Written(a, at, x + y)
  {
  }

  lemma WrittenWhole(a: Bytes, x: Bytes)
    requires |a| == |x|
    ensures Written(a, 0, x) == x
  {
  }

  /** The copying loop, at a running offset. */
  method WriteTensors(dst: array<Byte>, start: nat, prep: seq<Bytes>)
    requires start + |Concat(prep)| <= dst.Length
    modifies dst
    ensures dst[..] == Written(old(dst[..]), start, Concat(prep))
  {
    assert Concat(prep[..0]) == [] && Written(dst[..], start, []) == dst[..];
    hide Written, Concat;
    var i, off := 0, start;
    while i < |prep|
      invariant 0 <= i <= |prep| && off == start + |Concat(prep[..i])| <= dst.Length
      invariant dst[..] == Written(old(dst[..]), start, Concat(prep[..i]))
    {
      ConcatPrefix(prep, i);
      CopyBytes(dst, off, prep[i]);
      WrittenTwice(old(dst[..]), start, Concat(prep[..i]), prep[i]);
      ConcatAppend(prep[..i], prep[i]);
      assert prep[..i + 1] == prep[..i] + [prep[i]];
      off := off + |prep[i]|;
      i := i + 1;
    }
    assert prep[..i] == prep;
  }

  /** The shared region as encode_request gets it: memory, slot size, slot index. */
  datatype Shared = Shared(region: array<Byte>, slotBytes: nat, slot: nat)

  /** json.loads gets back the value json.dumps wrote. */
  predicate Survives(header: Value, dumps: Value -> Bytes, loads: Bytes -> Option<Value>)
  {
    loads(dumps(header)) == Some(header)
  }

  function RegionOf(s: Shared): Region
    reads s.region
  {
    Region(s.region[..], s.slotBytes)
  }

  lemma SlotFits(slot: nat, slotBytes: nat, n: nat, length: nat)
    requires n <= slotBytes && (slot + 1) * slotBytes <= length
    ensures SlotStart(slot, slotBytes) + n <= length
  {
  }

  /** encode_request with a region: the payload goes to the slot if it fits, and the frame
      decodes to the same tensors as an inline one. */
  method EncodeToSlot(info: Info, ts: Named, rtc: Value, s: Shared, dumps: Value -> Bytes,
      ghost loads: Bytes -> Option<Value>)
    returns (frame: Result<Bytes>)
    requires Dictionary(ts) && (s.slot + 1) * s.slotBytes <= s.region.Length
    requires Survives(SlotHeader(info, ts, rtc, s.slot), dumps, loads) &&
              Survives(InlineHeader(info, ts, rtc), dumps, loads)
    modifies s.region
    ensures var header := dumps(SlotHeader(info, ts, rtc, s.slot));
            if AllKnown(ts) && |Payload(ts)| <= s.slotBytes && |header| <= MAX_HEADER then
              && frame == Success(Pack(header, []))
              && DecodeRequest(frame.value, loads, Some(RegionOf(s))) == Success((info, AsMap(ts)))
              && SlotStart(s.slot, s.slotBytes) + |Payload(ts)| <= |old(s.region[..])|
              && s.region[..] == Written(old(s.region[..]), SlotStart(s.slot, s.slotBytes), Payload(ts))
            else s.region[..] == old(s.region[..])
    ensures !AllKnown(ts) ==> frame.Failure?
    ensures AllKnown(ts) && |Payload(ts)| > s.slotBytes && frame.Success? ==>
              DecodeRequest(frame.value, loads, Some(RegionOf(s))) == Success((info, AsMap(ts)))
  {
    hide DecodeRequest, SlotHeader, InlineHeader, AsMap, Payload, Pack, SlotStart, Written;
    var ok, specs, prep, total := TensorLayout(ts);
    if !ok { return Failure("unsupported dtype"); }
    if total > s.slotBytes {
      frame := EncodeInline(info, ts, rtc, dumps, loads, Some(RegionOf(s)));
      return;
    }
    var header := dumps(SlotHeader(info, ts, rtc, s.slot));
    if |header| > MAX_HEADER { return Failure("header too large"); }
    PayloadIsConcat(ts);
    SlotFits(s.slot, s.slotBytes, total, s.region.Length);
    WriteTensors(s.region, SlotStart(s.slot, s.slotBytes), prep);
    WrittenHolds(old(s.region[..]), SlotStart(s.slot, s.slotBytes), Payload(ts));
    SlotRoundTrip(info, ts, rtc, s.slot, header, loads, RegionOf(s));
    frame := Success(Pack(header, []));
  }

  lemma WrittenHolds(a: Bytes, at: nat, bytes: Bytes)
    requires at + |bytes| <= |a|
    ensures Holds(Written(a, at, bytes), at, bytes)
  {
  }

  /** encode_request without a region: one buffer with prefix, header and payload. */
  method EncodeInline(info: Info, ts: Named, rtc: Value, dumps: Value -> Bytes, ghost loads: Bytes -> Option<Value>,
                      ghost shm: Option<Region>)
    returns (frame: Result<Bytes>)
    requires Dictionary(ts) && Survives(InlineHeader(info, ts, rtc), dumps, loads)
    ensures var header := dumps(InlineHeader(info, ts, rtc));
            if AllKnown(ts) && |header| <= MAX_HEADER && PREFIX + |header| + |Payload(ts)| < 0x1_0000_0000 then
              && frame == Success(Pack(header, Payload(ts)))
              && DecodeRequest(frame.value, loads, shm) == Success((info, AsMap(ts)))
            else frame.Failure?
  {
    hide DecodeRequest, InlineHeader, AsMap, Payload, Written, Little;
    var ok, specs, prep, total := TensorLayout(ts);
    if !ok { return Failure("unsupported dtype"); }
    var header := dumps(InlineHeader(info, ts, rtc));
    if |header| > MAX_HEADER { return Failure("header too large"); }
    var size := PREFIX + |header| + total;
    if size >= 0x1_0000_0000 { return Failure("frame too long"); }
    var buf := new Byte[size](i => 0);
    var prefix := Little(size) + Little(|header|);
    ghost var blank := buf[..];
    CopyBytes(buf, 0, prefix);
    CopyBytes(buf, PREFIX, header);
    WrittenTwice(blank, 0, prefix, header);
    PayloadIsConcat(ts);
    WriteTensors(buf, PREFIX + |header|, prep);
    WrittenTwice(blank, 0, prefix + header, Payload(ts));
    WrittenWhole(blank, prefix + header + Payload(ts));
    InlineRoundTrip(info, ts, rtc, header, loads, shm);
    frame := Success(buf[..]);
  }

  // ---------------------------------------------------------------- the C++ header's text

  ghost predicate SmallShapes(ts: Named)
  {
    |Payload(ts)| <= BIGGEST && forall m <- ts :: forall d <- m.value.shape :: d <= BIGGEST
  }

  lemma SpecPrintable(ts: Named, i: nat)
    requires i < |ts| && SmallShapes(ts)
    ensures Printable(SpecJson(SpecAt(ts, i)))
  {
    RangesTile(ts, i, i + 1);
    assert ts[i] in ts;
    var spec := SpecAt(ts, i);
    ShapePrintable(spec.shape);
    SpecSorted(spec);
    FieldsPrintable(spec);
  }

  lemma ShapePrintable(shape: seq<nat>)
    requires forall d <- shape :: d <= BIGGEST
    ensures Printable(ShapeJson(shape))
  {
    forall i | 0 <= i < |shape|
      ensures Printable(Num(shape[i]))
    {
      assert shape[i] in shape;
    }
  }

  lemma FieldsPrintable(s: Spec)
    requires s.offset <= BIGGEST && s.nbytes <= BIGGEST && Printable(ShapeJson(s.shape)) && Sorted(SpecJson(s).members)
    ensures Printable(SpecJson(s))
  {
    hide Sorted, ShapeJson;
    var ms := SpecJson(s).members;
    assert ms[0].value == Str(s.dtype) && ms[1].value == Num(s.nbytes);
    assert ms[2].value == Num(s.offset) && ms[3].value == ShapeJson(s.shape);
  }

  lemma SpecSorted(s: Spec)
    ensures Sorted(SpecJson(s).members)
  {
    assert Less("dtype", "nbytes") && Less("dtype", "offset") && Less("dtype", "shape");
    assert Less("nbytes", "offset") && Less("nbytes", "shape") && Less("offset", "shape");
  }

  lemma {:induction false} InsertAllStaysSorted<T>(acc: seq<Member<T>>, ms: seq<Member<T>>)
    requires Sorted(acc)
    ensures Sorted(InsertAll(acc, ms))
    decreases |ms|
  {
    hide Sorted, Insert;
    if ms != [] {
      InsertSorted(acc, ms[0].key, ms[0].value);
      InsertAllStaysSorted(Insert(acc, ms[0].key, ms[0].value), ms[1..]);
    }
  }

  lemma MapPrintable(ms: seq<Member<Value>>)
    requires forall m <- ms :: Printable(m.value)
    ensures Printable(Obj(InsertAll([], ms)))
  {
    hide Sorted;
    var sorted := InsertAll([], ms);
    assert Sorted<Value>([]) by { NothingSorted(); }
    InsertAllStaysSorted([], ms);
    forall i | 0 <= i < |sorted|
      ensures Printable(sorted[i].value)
    {
      InsertAllMember([], ms, sorted[i]);
    }
  }

  lemma NothingSorted()
    ensures Sorted<Value>([])
  {
  }

  /** The header the C++ gateway writes parses back to that header. */
  lemma CppHeaderText(info: Info, ts: Named)
    requires SmallShapes(ts)
    ensures Printable(CppHeader(info, ts))
    ensures Parse(Dump(CppHeader(info, ts))) == Ok(CppHeader(info, ts), |Dump(CppHeader(info, ts))|)
  {
    hide SmallShapes, InsertAll, Dump, Parse;
    var specs := SpecMembers(ts);
    forall m | m in specs
      ensures Printable(m.value)
    {
      var i :| 0 <= i < |specs| && specs[i] == m;
      SpecPrintable(ts, i);
    }
    MapPrintable(specs);
    assert CppHeader(info, ts) == Obj(InsertAll([], CppFields(info, ts)));
    forall m | m in CppFields(info, ts)
      ensures Printable(m.value)
    {
    }
    MapPrintable(CppFields(info, ts));
    ParseDump(CppHeader(info, ts));
  }
}
