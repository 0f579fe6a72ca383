/**
 WebSocket frames as ws.cpp reads and writes them (sections 5.2 to 5.5 of RFC 6455),
 on byte strings: encoding, decoding and the reassembly of fragmented messages.
 */
module WebSocket {
  import opened Wrappers
  import Powers

  type Byte = b: int | 0 <= b < 256
  type Bytes = seq<Byte>

  const MAX_FRAME: nat := 0x800_0000  // 128 MiB

  const CONTINUATION: nat := 0
  const TEXT: nat := 1
  const BINARY: nat := 2
  const CLOSE: nat := 8
  const PING: nat := 9
  const PONG: nat := 10

  datatype Frame = Frame(fin: bool, op: nat, data: Bytes)

  /** The three encodings of a payload length. */
  datatype Form = Short | Medium | Long

  /** A frame as a client may send it: with or without a mask, in any of the length
      encodings that can hold its length. */
  datatype Wire = Wire(frame: Frame, mask: Option<Bytes>, form: Form)

  ghost predicate Sendable(w: Wire)
  {
    && w.frame.op < 16 && |w.frame.data| <= MAX_FRAME
    && (w.mask.Some? ==> |w.mask.value| == 4)
    && match w.form
       case Short => |w.frame.data| < 126
       case Medium => |w.frame.data| < 65536
       case Long => true
  }

  // ---------------------------------------------------------------- encoding

  /** Exclusive or of the k low bits. */
  function XorBits(k: nat, a: nat, b: nat): (r: nat)
    ensures r < Powers.Pow2(k)
  {
    if k == 0 then 0 else (a + b) % 2 + 2 * XorBits(k - 1, a / 2, b / 2)
  }

  function Xor(a: Byte, b: Byte): Byte
  {
    assert Powers.Pow2(8) == 256;
    XorBits(8, a, b)
  }

  /** Masking and unmasking: byte i is xor-ed with byte i mod 4 of the mask. */
  function Masked(data: Bytes, mask: Bytes): (r: Bytes)
    requires |mask| == 4
    ensures |r| == |data|
  {
    seq(|data|, i requires 0 <= i < |data| => Xor(data[i], mask[i % 4]))
  }

  function Pow256(k: nat): (p: nat)
    ensures p > 0
  {
    if k == 0 then 1 else 256 * Pow256(k - 1)
  }

  /** The k low bytes of n, highest first. */
  function Big(k: nat, n: nat): (r: Bytes)
    ensures |r| == k
  {
    if k == 0 then [] else [n / Pow256(k - 1) % 256] + Big(k - 1, n)
  }

  function LengthField(form: Form, n: nat, masked: bool): (r: Bytes)
    requires (form == Short ==> n < 126) && (form == Medium ==> n < 65536)
    ensures r != []
  {
    var bit := if masked then 128 else 0;
    match form
    case Short => [bit + n]
    case Medium => [bit + 126] + Big(2, n)
    case Long => [bit + 127] + Big(8, n)
  }

  function Encode(w: Wire): Bytes
    requires Sendable(w)
  {
    var f := w.frame;
    [(if f.fin then 128 else 0) + f.op] + LengthField(w.form, |f.data|, w.mask.Some?) +
    (if w.mask.Some? then w.mask.value + Masked(f.data, w.mask.value) else f.data)
  }

  function EncodeAll(ws: seq<Wire>): Bytes
    requires forall w <- ws :: Sendable(w)
  {
    if ws == [] then [] else Encode(ws[0]) + EncodeAll(ws[1..])
  }

  /** What send_frame writes: final, unmasked, the shortest length encoding. */
  function ServerFrame(op: nat, data: Bytes): Bytes
    requires op < 16
  {
    [128 + op] +
    (if |data| < 126 then [|data|]
     else if |data| < 65536 then [126] + Big(2, |data|)
     else [127] + Big(8, |data|)) + data
  }

  // ---------------------------------------------------------------- decoding

  function FromBig(acc: nat, bs: Bytes): nat
    decreases |bs|
  {
    if bs == [] then acc else FromBig(acc * 256 + bs[0], bs[1..])
  }

  /** Fail carries the error text, empty where the code leaves it unset. */
  datatype Decoded = Got(frame: Frame, n: nat) | Fail(err: string)

  function DecodeFrame(s: Bytes): (d: Decoded)
    ensures d.Got? ==> 2 <= d.n <= |s|
  {
    if |s| < 2 then Fail("EOF")
    else if s[1] % 128 == 126 then
      if |s| < 4 then Fail("") else DecodeBody(s, FromBig(0, s[2..4]), 4)
    else if s[1] % 128 == 127 then
      if |s| < 10 then Fail("") else DecodeBody(s, FromBig(0, s[2..10]), 10)
    else DecodeBody(s, s[1] % 128, 2)
  }

  /** The mask, if any, and the payload, from byte `at`. */
  function DecodeBody(s: Bytes, len: nat, at: nat): (d: Decoded)
    requires 2 <= at <= |s|
    ensures d.Got? ==> 2 <= d.n <= |s|
  {
    var fin, op := s[0] >= 128, s[0] % 16;
    if len > MAX_FRAME then Fail("frame too large")
    else if s[1] >= 128 then
      if |s| < at + 4 + len then Fail("")
      else Got(Frame(fin, op, Masked(s[at + 4..at + 4 + len], s[at..at + 4])), at + 4 + len)
    else
      if |s| < at + len then Fail("") else Got(Frame(fin, op, s[at..at + len]), at + len)
  }

  lemma {:induction false} XorTwice(k: nat, a: nat, m: nat)
    requires a < Powers.Pow2(k)
    ensures XorBits(k, XorBits(k, a, m), m) == a
  {
    if k > 0 {
      var r := XorBits(k - 1, a / 2, m / 2);
      XorTwice(k - 1, a / 2, m / 2);
      LowBit(a, m, r);
    }
  }

  lemma LowBit(a: nat, m: nat, r: nat)
    ensures ((a + m) % 2 + 2 * r) / 2 == r && ((a + m) % 2 + 2 * r + m) % 2 == a % 2
  {
  }

  lemma MaskTwice(data: Bytes, mask: Bytes)
    requires |mask| == 4
    ensures Masked(Masked(data, mask), mask) == data
  {
    var d := Masked(Masked(data, mask), mask);
    forall i | 0 <= i < |data|
      ensures d[i] == data[i]
    {
      assert Powers.Pow2(8) == 256;
      XorTwice(8, data[i], mask[i % 4]);
    }
  }

  // ---------------------------------------------------------------- frames round trip

  lemma DigitSplit(n: nat, p: nat)
    requires p > 0
    ensures n % (256 * p) == (n / p % 256) * p + n % p
  {
    var q, r := Powers.Euclid(n, p);
    var q', d := Powers.Euclid(q, 256);
    Regroup(n, p, q, r, q', d);
    Powers.DivUnique(n, 256 * p, q', d * p + r);
  }

  lemma Regroup(n: nat, p: nat, q: nat, r: nat, q': nat, d: nat)
    requires p > 0 && n == q * p + r && r < p && q == q' * 256 + d && d < 256
    ensures n == q' * (256 * p) + (d * p + r) && d * p + r < 256 * p
  {
    assert (q' * 256 + d) * p == q' * (256 * p) + d * p;
    Powers.MulMono(d, 255, p);
  }

  lemma {:induction false} BigValue(k: nat, n: nat, acc: nat)
    ensures FromBig(acc, Big(k, n)) == acc * Pow256(k) + n % Pow256(k)
  {
    if k > 0 {
      var p := Pow256(k - 1);
      var d := n / p % 256;
      BigValue(k - 1, n, acc * 256 + d);
      DigitSplit(n, p);
      assert Big(k, n)[1..] == Big(k - 1, n);
      Shifted(acc, d, p);
    }
  }

  lemma Shifted(acc: nat, d: nat, p: nat)
    ensures (acc * 256 + d) * p == acc * (256 * p) + d * p
  {
  }

  lemma LengthReads(k: nat, n: nat)
    requires n < Pow256(k)
    ensures FromBig(0, Big(k, n)) == n
  {
    hide Pow256, Big, FromBig;
    BigValue(k, n, 0);
    Powers.DivUnique(n, Pow256(k), 0, n);
  }

  /** The bytes of a frame up to its mask: two header bytes and the long length, if any. */
  function Header(w: Wire): Bytes
    requires Sendable(w)
  {
    [(if w.frame.fin then 128 else 0) + w.frame.op] + LengthField(w.form, |w.frame.data|, w.mask.Some?)
  }

  function Tail(w: Wire): Bytes
    requires Sendable(w)
  {
    if w.mask.Some? then w.mask.value + Masked(w.frame.data, w.mask.value) else w.frame.data
  }

  lemma BodyReads(w: Wire, s: Bytes, at: nat, rest: Bytes)
    requires Sendable(w) && at >= 2 && |s| >= at && s[at..] == Tail(w) + rest
    requires s[0] == (if w.frame.fin then 128 else 0) + w.frame.op && (s[1] >= 128 <==> w.mask.Some?)
    ensures DecodeBody(s, |w.frame.data|, at) == Got(w.frame, at + |Tail(w)|)
  {
    var data := w.frame.data;
    if w.mask.Some? {
      var mask := w.mask.value;
      MaskTwice(data, mask);
      assert s[at..at + 4] == s[at..][..4] == mask;
      assert s[at + 4..at + 4 + |data|] == s[at..][4..4 + |data|] == Masked(data, mask);
    } else {
      assert s[at..at + |data|] == s[at..][..|data|] == data;
    }
  }

  lemma Pow256Values()
    ensures Pow256(2) == 65536 && MAX_FRAME < Pow256(8)
  {
    assert Pow256(4) == 65536 * 65536;
  }

  lemma HeaderReads(w: Wire, s: Bytes)
    requires Sendable(w) && Header(w) <= s
    ensures s[0] == (if w.frame.fin then 128 else 0) + w.frame.op && (s[1] >= 128 <==> w.mask.Some?)
    ensures DecodeFrame(s) == DecodeBody(s, |w.frame.data|, |Header(w)|)
  {
    hide Big, FromBig, Pow256, DecodeBody;
    var h, n := Header(w), |w.frame.data|;
    Pow256Values();
    assert s[..|h|] == h;
    assert s[0] == h[0] && s[1] == h[1];
    match w.form
    case Short =>
    case Medium =>
      assert s[2..4] == h[2..4] == Big(2, n);
      LengthReads(2, n);
    case Long =>
      assert s[2..10] == h[2..10] == Big(8, n);
      LengthReads(8, n);
  }

  /** Decoding inverts encoding, for every length encoding, masked or not. */
  lemma DecodeEncode(w: Wire, rest: Bytes)
    requires Sendable(w)
    ensures DecodeFrame(Encode(w) + rest) == Got(w.frame, |Encode(w)|)
  {
    hide LengthField, Masked, DecodeBody, DecodeFrame;
    var s := Encode(w) + rest;
    assert Encode(w) == Header(w) + Tail(w);
    assert s[|Header(w)|..] == Tail(w) + rest;
    assert s[..|Header(w)|] == Header(w);
    HeaderReads(w, s);
    BodyReads(w, s, |Header(w)|, rest);
  }

  /** What the server sends, a client reads back. */
  lemma ServerFrameReads(op: nat, data: Bytes, rest: Bytes)
    requires op < 16 && |data| <= MAX_FRAME
    ensures DecodeFrame(ServerFrame(op, data) + rest) == Got(Frame(true, op, data), |ServerFrame(op, data)|)
  {
    hide Big, DecodeFrame;
    var form := if |data| < 126 then Short else if |data| < 65536 then Medium else Long;
    var w := Wire(Frame(true, op, data), None, form);
    assert Encode(w) == ServerFrame(op, data);
    DecodeEncode(w, rest);
  }

  // ---------------------------------------------------------------- reassembly

  datatype Result = Message(payload: Bytes, opcode: nat) | Failed(err: string)

  /** The result of reading one message: how many bytes were read when it succeeded, and
      the bytes sent meanwhile. */
  datatype Outcome = Outcome(result: Result, n: nat, sent: Bytes)

  /** A message under way: whether a data frame is still to come, its opcode, its bytes so far. */
  datatype Progress = Progress(first: bool, opcode: nat, payload: Bytes)

  function After(n: nat, sent: Bytes, o: Outcome): Outcome
  {
    Outcome(o.result, n + o.n, sent + o.sent)
  }

  /** read_message from byte s on. */
  function Assemble(s: Bytes, p: Progress): Outcome
    decreases |s|, 0
  {
    match DecodeFrame(s)
    case Fail(e) => Outcome(Failed(e), 0, [])
    case Got(f, n) => Handle(f, n, s[n..], p)
  }

  /** What a frame of n bytes does, with `rest` still to be read. */
  function Handle(f: Frame, n: nat, rest: Bytes, p: Progress): Outcome
    decreases |rest|, 1
  {
    if f.op == PING then After(n, ServerFrame(PONG, f.data), Assemble(rest, p))
    else if f.op == PONG then After(n, [], Assemble(rest, p))
    else if f.op == CLOSE then Outcome(Failed("close"), n, ServerFrame(CLOSE, f.data))
    else if f.op == CONTINUATION && p.first then Outcome(Failed("unexpected continuation"), n, [])
    else if (f.op == TEXT || f.op == BINARY) && !p.first then
      Outcome(Failed("new data frame during fragmented message"), n, [])
    else if f.op > BINARY then Outcome(Failed("unknown opcode"), n, [])
    else
      var q := Progress(false, if f.op == CONTINUATION then p.opcode else f.op, p.payload + f.data);
      if f.fin then Outcome(Message(q.payload, q.opcode), n, []) else After(n, [], Assemble(rest, q))
  }

  lemma AssembleUnfold(s: Bytes, p: Progress, d: Decoded)
    requires d == DecodeFrame(s)
    ensures Assemble(s, p) == if d.Got? then Handle(d.frame, d.n, s[d.n..], p) else Outcome(Failed(d.err), 0, [])
  {
    hide DecodeFrame, Handle;
  }

  const START := Progress(true, 0, [])

  // ---------------------------------------------------------------- fragmented messages

  predicate Control(f: Frame)
  {
    f.op == PING || f.op == PONG
  }

  /** The rest of a message: data frames, the first one opening it if `first`, the last
      one and no other final, with pings and pongs in between. */
  ghost predicate Fragments(fs: seq<Frame>, first: bool)
  {
    && fs != []
    && if Control(fs[0]) then Fragments(fs[1..], first)
       else
         && (if first then fs[0].op == TEXT || fs[0].op == BINARY else fs[0].op == CONTINUATION)
         && (if fs[0].fin then |fs| == 1 else Fragments(fs[1..], false))
  }

  function Payload(fs: seq<Frame>): Bytes
  {
    if fs == [] then [] else (if Control(fs[0]) then [] else fs[0].data) + Payload(fs[1..])
  }

  /** The opcode of the first data frame. */
  function Opcode(fs: seq<Frame>): nat
  {
    if fs == [] then 0 else if Control(fs[0]) then Opcode(fs[1..]) else fs[0].op
  }

  /** One pong for each ping, in order, with the ping's own data. */
  function Pongs(fs: seq<Frame>): Bytes
  {
    if fs == [] then []
    else (if fs[0].op == PING then ServerFrame(PONG, fs[0].data) else []) + Pongs(fs[1..])
  }

  function Frames(ws: seq<Wire>): (r: seq<Frame>)
    ensures |r| == |ws|
  {
    seq(|ws|, i requires 0 <= i < |ws| => ws[i].frame)
  }

  /** However a message is cut into masked fragments with pings and pongs in between, and
      whatever follows it, reading it gives its bytes and opcode, answers each ping once
      and in order, and stops just after its last frame. */
  lemma {:induction false} Reassembles(ws: seq<Wire>, p: Progress, rest: Bytes)
    requires (forall w <- ws :: Sendable(w)) && Fragments(Frames(ws), p.first)
    ensures Assemble(EncodeAll(ws) + rest, p) ==
            Outcome(Message(p.payload + Payload(Frames(ws)), if p.first then Opcode(Frames(ws)) else p.opcode),
              |EncodeAll(ws)|, Pongs(Frames(ws)))
    decreases |ws|
  {
    hide DecodeFrame, Encode, ServerFrame;
    var w, f, more := ws[0], ws[0].frame, EncodeAll(ws[1..]) + rest;
    assert EncodeAll(ws) + rest == Encode(w) + more;
    DecodeEncode(w, more);
    assert (Encode(w) + more)[|Encode(w)|..] == more;
    assert Frames(ws)[1..] == Frames(ws[1..]);
    assert Frames(ws)[0] == f && EncodeAll(ws) + rest == Encode(w) + more;
    if Control(f) {
      Reassembles(ws[1..], p, rest);
      assert [] + Payload(Frames(ws[1..])) == Payload(Frames(ws[1..]));
      assert [] + Pongs(Frames(ws[1..])) == Pongs(Frames(ws[1..]));
      assert Assemble(Encode(w) + more, p) ==
             After(|Encode(w)|, if f.op == PING then ServerFrame(PONG, f.data) else [], Assemble(more, p));
    } else if !f.fin {
      var q := Progress(false, if p.first then f.op else p.opcode, p.payload + f.data);
      Reassembles(ws[1..], q, rest);
      assert p.payload + f.data + Payload(Frames(ws[1..])) == p.payload + (f.data + Payload(Frames(ws[1..])));
    } else {
      assert ws[1..] == [];
      assert p.payload + (f.data + []) == p.payload + f.data;
    }
  }

  /** The frames read until the message is complete or reading fails. */
  function FramesRead(s: Bytes, p: Progress): seq<Frame>
    decreases |s|
  {
    match DecodeFrame(s)
    case Fail(_) => []
    case Got(f, n) =>
      if Control(f) then [f] + FramesRead(s[n..], p)
      else if f.fin then [f]
      else [f] + FramesRead(s[n..], Progress(false, if p.first then f.op else p.opcode, p.payload + f.data))
  }

  /** A message is returned only for a correctly fragmented sequence of frames. */
  lemma {:induction false} OnlyFragments(s: Bytes, p: Progress)
    requires Assemble(s, p).result.Message?
    ensures var fs, o := FramesRead(s, p), Assemble(s, p);
            && Fragments(fs, p.first) && o.sent == Pongs(fs)
            && o.result == Message(p.payload + Payload(fs), if p.first then Opcode(fs) else p.opcode)
    decreases |s|
  {
    hide DecodeFrame, ServerFrame;
    var f, n := DecodeFrame(s).frame, DecodeFrame(s).n;
    var fs := FramesRead(s, p);
    if Control(f) {
      OnlyFragments(s[n..], p);
      assert fs[1..] == FramesRead(s[n..], p);
      assert [] + Payload(fs[1..]) == Payload(fs[1..]) && [] + Pongs(fs[1..]) == Pongs(fs[1..]);
    } else if !f.fin {
      var q := Progress(false, if p.first then f.op else p.opcode, p.payload + f.data);
      OnlyFragments(s[n..], q);
      assert fs[1..] == FramesRead(s[n..], q);
      assert p.payload + f.data + Payload(fs[1..]) == p.payload + (f.data + Payload(fs[1..]));
      assert [] + Pongs(fs[1..]) == Pongs(fs[1..]);
    } else {
      assert fs[1..] == [];
      assert f.data + [] == f.data;
    }
  }

  // ---------------------------------------------------------------- the connection

  lemma AfterTwice(m: nat, a: Bytes, n: nat, b: Bytes, o: Outcome)
    ensures After(m, a, After(n, b, o)) == After(m + n, a + b, o)
  {
    assert a + (b + o.sent) == a + b + o.sent;
  }

  lemma {:induction false} FromBigAppend(acc: nat, bs: Bytes, b: Byte)
    ensures FromBig(acc, bs + [b]) == FromBig(acc, bs) * 256 + b
    decreases |bs|
  {
    if bs == [] {
      assert [b][1..] == [];
    } else {
      assert (bs + [b])[1..] == bs[1..] + [b];
      FromBigAppend(acc * 256 + bs[0], bs[1..], b);
    }
  }

  /** The socket: what the peer sends, how much of it was read, and what was sent back. */
  class Connection {
    const input: Bytes
    var pos: nat
    var output: Bytes

    constructor (input: Bytes)
      ensures this.input == input && pos == 0 && output == []
    {
      this.input := input;
      pos := 0;
      output := [];
    }

    method ReadExact(n: nat) returns (ok: bool, buf: Bytes)
      requires pos <= |input|
      modifies this`pos
      ensures ok == (old(pos) + n <= |input|) && pos <= |input|
      ensures ok ==> pos == old(pos) + n && buf == input[old(pos)..pos]
    {
      ok, buf := pos + n <= |input|, [];
      if ok {
        buf := input[pos..pos + n];
        pos := pos + n;
      } else {
        pos := |input|;
      }
    }

    method SendFrame(op: nat, payload: Bytes)
      requires op < 16
      modifies this`output
      ensures output == old(output) + ServerFrame(op, payload)
    {
      hide Pow256;
      var n := |payload|;
      var frame: Bytes := [128 + op];
      if n < 126 {
        frame := frame + [n];
      } else if n < 65536 {
        frame := frame + [126];
        ghost var header := frame;
        frame := frame + [n / 256 % 256];
        frame := frame + [n % 256];
        BigTwo(n);
        assert frame == header + Big(2, n);
      } else {
        frame := frame + [127];
        ghost var header := frame;
        var i := 8;
        while i > 0
          invariant 0 <= i <= 8 && frame + Big(i, n) == header + Big(8, n)
        {
          ghost var before := frame;
          i := i - 1;
          frame := frame + [n / Pow256(i) % 256];
          assert frame + Big(i, n) == before + Big(i + 1, n);
        }
        assert frame + Big(0, n) == frame;
      }
      frame := frame + payload;
      output := output + frame;
    }

    method ReadLength(k: nat) returns (ok: bool, len: nat)
      requires pos <= |input|
      modifies this`pos
      ensures ok == (old(pos) + k <= |input|) && pos <= |input|
      ensures ok ==> pos == old(pos) + k && len == FromBig(0, input[old(pos)..pos])
    {
      var ext;
      len := 0;
      ok, ext := ReadExact(k);
      if !ok { return; }
      var i := 0;
      while i < k
        invariant 0 <= i <= k && pos == old(pos) + k && len == FromBig(0, ext[..i])
      {
        FromBigAppend(0, ext[..i], ext[i]);
        assert ext[..i] + [ext[i]] == ext[..i + 1];
        len := len * 256 + ext[i];
        i := i + 1;
      }
      assert ext[..i] == ext;
    }

    /** The two header bytes and the length they announce. */
    method ReadHeader() returns (ok: bool, h: Bytes, len: nat, err: string)
      requires pos <= |input|
      modifies this`pos
      ensures pos <= |input|
      ensures var s := old(input[pos..]);
              if ok then
                && old(pos) + 2 <= pos && |h| == 2 && |s| >= 2 && h[0] == s[0] && h[1] == s[1]
                && DecodeFrame(s) == DecodeBody(s, len, pos - old(pos))
              else DecodeFrame(s) == Fail(err)
    {
      hide FromBig, DecodeBody;
      ghost var s, start := input[pos..], pos;
      err := "";
      ok, h := ReadExact(2);
      if !ok { return false, h, 0, "EOF"; }
      assert h[0] == s[0] && h[1] == s[1];
      len := h[1] % 128;
      if len == 126 {
        ok, len := ReadLength(2);
        if ok { assert s[2..4] == input[start + 2..pos]; }
      } else if len == 127 {
        ok, len := ReadLength(8);
        if ok { assert s[2..10] == input[start + 2..pos]; }
      }
    }

    /** One frame, unmasked in place. */
    method ReadFrame() returns (d: Decoded)
      requires pos <= |input|
      modifies this`pos
      ensures pos <= |input| && d == DecodeFrame(old(input[pos..]))
      ensures d.Got? ==> pos == old(pos) + d.n
    {
      hide DecodeFrame, Masked;
      ghost var s := input[pos..];
      var start := pos;
      var ok, h, len, err := ReadHeader();
      if !ok { return Fail(err); }
      ghost var at := pos - start;
      if len > MAX_FRAME { return Fail("frame too large"); }
      var mask: Bytes := [0, 0, 0, 0];
      var masked := h[1] >= 128;
      if masked {
        ok, mask := ReadExact(4);
        if !ok { return Fail(""); }
        assert mask == s[at..at + 4];
      }
      var data;
      ok, data := ReadExact(len);
      if !ok { return Fail(""); }
      if masked {
        assert data == s[at + 4..at + 4 + len];
        data := Unmask(data, mask);
      } else {
        assert data == s[at..at + len];
      }
      d := Got(Frame(h[0] >= 128, h[0] % 16, data), pos - start);
    }

    /** One turn of read_message's loop.  Unless it is the last one, what is still to be read
        goes on from `next`, with the bytes in `sent` sent so far. */
    method Turn(p: Progress) returns (done: bool, ok: bool, next: Progress, err: string, ghost sent: Bytes)
      requires pos <= |input|
      modifies this
      ensures pos <= |input|
      ensures var o := Assemble(old(input[pos..]), p);
              if done then
                && output == old(output) + o.sent
                && match o.result
                   case Message(m, op) => ok && next.payload == m && next.opcode == op && pos == old(pos) + o.n
                   case Failed(e) => !ok && err == e
              else
                pos > old(pos) && output == old(output) + sent &&
                  o == After(pos - old(pos), sent, Assemble(input[pos..], next))
    {
      hide ServerFrame, DecodeFrame, Assemble, Handle;
      next, ok, err, sent := p, false, "", [];
      ghost var s := input[pos..];
      var d := ReadFrame();
      AssembleUnfold(s, p, d);
      if d.Fail? { return true, false, next, d.err, []; }
      var f := d.frame;
      ControlHandled(f, d.n, input[pos..], p);
      if f.op == PING {
        SendFrame(PONG, f.data);
        return false, false, next, "", ServerFrame(PONG, f.data);
      }
      if f.op == PONG { return false, false, next, "", []; }
      if f.op == CLOSE {
        SendFrame(CLOSE, f.data);
        return true, false, next, "close", [];
      }
      var payload, opcode;
      err, payload, opcode := TakeData(f, p.first, p.payload, p.opcode, d.n, input[pos..]);
      next := Progress(false, opcode, payload);
      done := err != "" || f.fin;
      ok := err == "" && f.fin;
    }

    method ReadMessage() returns (ok: bool, payload: Bytes, opcode: nat, err: string)
      requires pos <= |input|
      modifies this
      ensures pos <= |input|
      ensures var o := Assemble(old(input[pos..]), START);
              && output == old(output) + o.sent
              && match o.result
                 case Message(m, op) => ok && payload == m && opcode == op && pos == old(pos) + o.n
                 case Failed(e) => !ok && err == e
    {
      hide Assemble;
      var p, done := START, false;
      ok, err := false, "";
      ghost var sent: Bytes := [];
      ghost var whole := Assemble(input[pos..], START);
      while !done
        invariant pos <= |input|
        invariant !done ==> old(pos) <= pos && output == old(output) + sent
        invariant !done ==> whole == After(pos - old(pos), sent, Assemble(input[pos..], p))
        invariant done ==> output == old(output) + whole.sent
        invariant done ==> match whole.result
                           case Message(m, op) => ok && p.payload == m && p.opcode == op && pos == old(pos) + whole.n
                           case Failed(e) => !ok && err == e
        decreases !done, |input| - pos
      {
        ghost var before, more := pos, [];
        done, ok, p, err, more := Turn(p);
        if !done {
          AfterTwice(before - old(pos), sent, pos - before, more, Assemble(input[pos..], p));
          sent := sent + more;
        }
      }
      payload, opcode := p.payload, p.opcode;
    }
  }

  lemma ControlHandled(f: Frame, n: nat, rest: Bytes, p: Progress)
    ensures f.op == PING ==> Handle(f, n, rest, p) == After(n, ServerFrame(PONG, f.data), Assemble(rest, p))
    ensures f.op == PONG ==> Handle(f, n, rest, p) == After(n, [], Assemble(rest, p))
    ensures f.op == CLOSE ==> Handle(f, n, rest, p) == Outcome(Failed("close"), n, ServerFrame(CLOSE, f.data))
  {
    hide ServerFrame, Assemble;
  }

  /** read_message's branches for a data frame, n bytes long and with `rest` behind it. */
  method TakeData(f: Frame, first: bool, payload: Bytes, opcode: nat, ghost n: nat, ghost rest: Bytes)
    returns (err: string, more: Bytes, op: nat)
    requires !Control(f) && f.op != CLOSE
    ensures Handle(f, n, rest, Progress(first, opcode, payload)) ==
            if err != "" then Outcome(Failed(err), n, [])
            else if f.fin then Outcome(Message(more, op), n, [])
            else After(n, [], Assemble(rest, Progress(false, op, more)))
  {
    hide Assemble, After;
    if f.op == CONTINUATION {
      if first { return "unexpected continuation", payload, opcode; }
      return "", payload + f.data, opcode;
    }
    if f.op != TEXT && f.op != BINARY { return "unknown opcode", payload, opcode; }
    if !first { return "new data frame during fragmented message", payload, opcode; }
    return "", payload + f.data, f.op;
  }

  lemma BigTwo(n: nat)
    requires n < 65536
    ensures Big(2, n) == [n / 256 % 256, n % 256]
  {
    assert Pow256(1) == 256 && Pow256(0) == 1;
    assert Big(1, n) == [n % 256];
  }

  method Unmask(data: Bytes, mask: Bytes) returns (r: Bytes)
    requires |mask| == 4
    ensures r == Masked(data, mask)
  {
    var a := new Byte[|data|](i requires 0 <= i < |data| => data[i]);
    var i := 0;
    while i < a.Length
      invariant 0 <= i <= a.Length == |data|
      invariant forall j :: 0 <= j < i ==> a[j] == Xor(data[j], mask[j % 4])
      invariant forall j :: i <= j < |data| ==> a[j] == data[j]
    {
      a[i] := Xor(a[i], mask[i % 4]);
      i := i + 1;
    }
    r := a[..];
  }
}
