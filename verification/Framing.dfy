/**
 Length-prefixed frames over a byte stream that arrives in arbitrary pieces: the read
 loops of the worker, the Python gateway and the C++ gateway.
 */
module Framing {
  type Byte = b: int | 0 <= b < 256
  type Bytes = seq<Byte>

  const PREFIX: nat := 8
  const MAX_FRAME: nat := 0x4000_0000  // 1 GiB
  const MAX_HEADER: nat := 0x10_0000  // 1 MiB

  // ---------------------------------------------------------------- layout

  /** struct.pack("<I"): four bytes, lowest first. */
  function Little(n: nat): (r: Bytes)
    requires n < 0x1_0000_0000
    ensures |r| == 4
  {
    [n % 256, n / 256 % 256, n / 65536 % 256, n / 16777216]
  }

  function FromLittle(b: Bytes): nat
    requires |b| == 4
  {
    b[0] as int + 256 * (b[1] as int) + 65536 * (b[2] as int) + 16777216 * (b[3] as int)
  }

  lemma LittleRoundTrip(n: nat)
    requires n < 0x1_0000_0000
    ensures FromLittle(Little(n)) == n
  {
    SplitByte(n, n / 256, n / 65536);
    SplitByte(n / 256, n / 65536, n / 16777216);
  }

  lemma SplitByte(n: nat, high: nat, higher: nat)
    requires high == n / 256 && higher == high / 256
    ensures n == n % 256 + 256 * (high % 256) + 65536 * higher
  {
  }

  /** Total length, header length, header, payload; struct.pack refuses longer ones. */
  function Pack(header: Bytes, payload: Bytes): Bytes
    requires PREFIX + |header| + |payload| < 0x1_0000_0000
  {
    Little(PREFIX + |header| + |payload|) + Little(|header|) + header + payload
  }

  function TotalLength(frame: Bytes): nat
    requires |frame| >= PREFIX
  {
    FromLittle(frame[..4])
  }

  function HeaderLength(frame: Bytes): nat
    requires |frame| >= PREFIX
  {
    FromLittle(frame[4..8])
  }

  /** A frame whose length field is true and which a reader accepts. */
  ghost predicate WellFormed(frame: Bytes)
  {
    PREFIX <= |frame| <= MAX_FRAME && TotalLength(frame) == |frame|
  }

  lemma PackLengths(header: Bytes, payload: Bytes)
    requires PREFIX + |header| + |payload| < 0x1_0000_0000
    ensures var f := Pack(header, payload);
            && |f| == PREFIX + |header| + |payload| && TotalLength(f) == |f| && HeaderLength(f) == |header|
            && f[PREFIX..PREFIX + |header|] == header && f[PREFIX + |header|..] == payload
  {
    var f := Pack(header, payload);
    assert f[..4] == Little(PREFIX + |header| + |payload|);
    assert f[4..8] == Little(|header|);
    LittleRoundTrip(PREFIX + |header| + |payload|);
    LittleRoundTrip(|header|);
  }

  // ---------------------------------------------------------------- reading one frame

  datatype Read = Frame(frame: Bytes) | Eof | TooLarge

  /** What a reader makes of the bytes s, if they are all the stream will bring.  A total
      length below eight is not noticed here: the prefix is returned as the frame. */
  function NextFrame(s: Bytes): Read
  {
    if |s| < PREFIX then Eof
    else if TotalLength(s) > MAX_FRAME then TooLarge
    else if TotalLength(s) < PREFIX then Frame(s[..PREFIX])
    else if |s| < TotalLength(s) then Eof
    else Frame(s[..TotalLength(s)])
  }

  lemma NextIsFirst(frame: Bytes, rest: Bytes)
    requires WellFormed(frame)
    ensures NextFrame(frame + rest) == Frame(frame)
  {
    assert (frame + rest)[..4] == frame[..4];
    assert (frame + rest)[..|frame|] == frame;
  }

  /** A packed frame is read back whole, unless it is over the limit. */
  lemma PackedIsRead(header: Bytes, payload: Bytes, rest: Bytes)
    requires PREFIX + |header| + |payload| < 0x1_0000_0000
    ensures var f := Pack(header, payload);
            NextFrame(f + rest) == if |f| <= MAX_FRAME then Frame(f) else TooLarge
  {
    var f := Pack(header, payload);
    PackLengths(header, payload);
    if |f| <= MAX_FRAME { NextIsFirst(f, rest); } else { assert (f + rest)[..4] == f[..4]; }
  }

  /** The frames of a stream up to its end or the first frame that is refused. */
  function Split(s: Bytes): seq<Bytes>
    decreases |s|
  {
    match NextFrame(s)
    case Frame(f) => [f] + Split(s[|f|..])
    case _ => []
  }

  function Concat(frames: seq<Bytes>): Bytes
  {
    if frames == [] then [] else frames[0] + Concat(frames[1..])
  }

  /** However the frames were sent, a reader gets them back one by one, in order. */
  lemma {:induction false} SplitConcat(frames: seq<Bytes>)
    requires forall f <- frames :: WellFormed(f)
    ensures Split(Concat(frames)) == frames
  {
    hide NextFrame, WellFormed;
    if frames == [] {
      NothingLeft();
    } else {
      var f, rest := frames[0], Concat(frames[1..]);
      FrameLength(f);
      NextIsFirst(f, rest);
      assert (f + rest)[|f|..] == rest;
      SplitConcat(frames[1..]);
    }
  }

  /** A stream that ends inside a frame gives the frames before it, and no part of that one. */
  lemma {:induction false} SplitCut(frames: seq<Bytes>, last: Bytes, k: nat)
    requires (forall f <- frames :: WellFormed(f)) && WellFormed(last) && k < |last|
    ensures Split(Concat(frames) + last[..k]) == frames
  {
    if frames == [] {
      assert Concat([]) + last[..k] == last[..k];
      CutShort(last, k);
    } else {
      hide NextFrame, WellFormed;
      var f, rest := frames[0], Concat(frames[1..]) + last[..k];
      FrameLength(f);
      NextIsFirst(f, rest);
      assert Concat(frames) + last[..k] == f + rest && (f + rest)[|f|..] == rest;
      SplitCut(frames[1..], last, k);
    }
  }

  lemma NothingLeft()
    ensures NextFrame([]) == Eof
  {
  }

  lemma FrameLength(f: Bytes)
    requires WellFormed(f)
    ensures |f| >= PREFIX
  {
  }

  /** The last frame cut short gives an end of stream, never a shorter frame. */
  lemma CutShort(frame: Bytes, k: nat)
    requires WellFormed(frame) && k < |frame|
    ensures NextFrame(frame[..k]) == Eof
  {
    if k >= PREFIX { assert frame[..k][..4] == frame[..4]; }
  }

  lemma SplitStep(s: Bytes)
    ensures var r := NextFrame(s);
            if r.Frame? then 0 < |r.frame| <= |s| && Split(s) == [r.frame] + Split(s[|r.frame|..]) else Split(s) == []
  {
  }

  predicate CppAccepts(s: Bytes)
  {
    |s| >= PREFIX && TotalLength(s) >= PREFIX + HeaderLength(s) && HeaderLength(s) <= MAX_HEADER
    && |s| >= PREFIX + HeaderLength(s)
  }

  /** What the C++ reader leaves unread: a refused prefix is not followed up. */
  function CppRest(s: Bytes): Bytes
  {
    if |s| < PREFIX then []
    else if TotalLength(s) < PREFIX + HeaderLength(s) || HeaderLength(s) > MAX_HEADER then s[PREFIX..]
    else if |s| < PREFIX + HeaderLength(s) then []
    else s[PREFIX + HeaderLength(s)..]
  }

  /** After the C++ reader took the header, it stands at the end of the frame exactly when
      the frame has no payload (as no response of the worker has). */
  lemma CppInStep(header: Bytes, payload: Bytes, rest: Bytes)
    requires |header| <= MAX_HEADER && PREFIX + |header| + |payload| < 0x1_0000_0000
    ensures var s := Pack(header, payload) + rest;
            && CppAccepts(s) && s[PREFIX..PREFIX + HeaderLength(s)] == header
            && (PREFIX + HeaderLength(s) == |Pack(header, payload)| <==> payload == [])
  {
    var f := Pack(header, payload);
    PackLengths(header, payload);
    assert (f + rest)[..4] == f[..4] && (f + rest)[4..8] == f[4..8];
    assert (f + rest)[PREFIX..PREFIX + |header|] == f[PREFIX..PREFIX + |header|];
  }

  // ---------------------------------------------------------------- the loops

  /** A connected socket: the peer sends `input` and closes. */
  class Socket {
    const input: Bytes
    var pos: nat

    constructor (input: Bytes)
      ensures this.input == input && pos == 0
    {
      this.input := input;
      pos := 0;
    }

    /** recv: some of the bytes that are left, at most n; none only at the end. */
    method Recv(n: nat) returns (chunk: Bytes)
      requires pos <= |input| && n > 0
      modifies this
      ensures old(pos) <= pos <= |input| && chunk == input[old(pos)..pos] && |chunk| <= n
      ensures chunk == [] <==> old(pos) == |input|
    {
      chunk := [];
      if pos < |input| {
        var k: nat :| 0 < k <= n && pos + k <= |input|;
        chunk := input[pos..pos + k];
        pos := pos + k;
      }
    }

    /** Receives n bytes piece by piece; short at the end of the stream. */
    method RecvAll(n: nat) returns (bytes: Bytes)
      requires pos <= |input|
      modifies this
      ensures old(pos) <= pos <= |input| && bytes == input[old(pos)..pos]
      ensures if old(pos) + n <= |input| then |bytes| == n else |bytes| < n && pos == |input|
    {
      bytes := [];
      while |bytes| < n
        invariant old(pos) <= pos <= |input| && bytes == input[old(pos)..pos] && |bytes| <= n
      {
        var chunk := Recv(n - |bytes|);
        if chunk == [] { return; }
        bytes := bytes + chunk;
      }
    }

    /** The gateway's reader: prefix and body are appended to. */
    method GatewayReadFrame() returns (r: Read)
      requires pos <= |input|
      modifies this
      ensures r == NextFrame(old(input[pos..])) && pos <= |input|
      ensures r.Frame? ==> pos == old(pos) + |r.frame|
    {
      ghost var s := input[pos..];
      var prefix := RecvAll(PREFIX);
      if |prefix| < PREFIX { return Eof; }
      assert prefix[..4] == s[..4];
      var total := FromLittle(prefix[..4]);
      if total > MAX_FRAME { return TooLarge; }
      var body := RecvAll(if total >= PREFIX then total - PREFIX else 0);
      if total >= PREFIX && |body| < total - PREFIX { return Eof; }
      assert prefix + body == s[..|prefix + body|];
      r := Frame(prefix + body);
    }

    /** The worker's reader: one buffer of the announced size, filled in place.  Storing
        the prefix makes the buffer at least eight bytes long. */
    method WorkerReadFrame() returns (r: Read)
      requires pos <= |input|
      modifies this
      ensures r == NextFrame(old(input[pos..])) && pos <= |input|
      ensures r.Frame? ==> pos == old(pos) + |r.frame|
    {
      ghost var s := input[pos..];
      var prefix := RecvAll(PREFIX);
      if |prefix| < PREFIX { return Eof; }
      assert prefix[..4] == s[..4];
      var total := FromLittle(prefix[..4]);
      if total > MAX_FRAME { return TooLarge; }
      var buf := new Byte[if total < PREFIX then PREFIX else total](i => 0);
      var i := 0;
      while i < PREFIX
        invariant 0 <= i <= PREFIX && buf[..i] == prefix[..i] && pos == old(pos) + PREFIX
      {
        buf[i] := prefix[i];
        i := i + 1;
      }
      var off := PREFIX;
      while off < total
        invariant PREFIX <= off <= buf.Length && pos == old(pos) + off <= |input|
        invariant buf[..off] == s[..off]
      {
        ghost var at := pos;
        var n := RecvInto(buf, off, total - off);
        if n == 0 { return Eof; }
        assert s[off..off + n] == input[at..pos];
        assert s[..off + n] == s[..off] + s[off..off + n];
        assert buf[..off + n] == buf[..off] + buf[off..off + n];
        off := off + n;
      }
      r := Frame(buf[..]);
      assert buf[..] == buf[..off];
    }

    /** The worker's receiving loop: frames until the end of the stream or an error. */
    method ReadAllFrames() returns (frames: seq<Bytes>)
      requires pos == 0
      modifies this
      ensures frames == Split(input)
    {
      hide NextFrame;
      frames := [];
      assert input[0..] == input;
      while true
        invariant pos <= |input| && Split(input) == frames + Split(input[pos..])
        decreases |input| - pos
      {
        ghost var s := input[pos..];
        SplitStep(s);
        var r := WorkerReadFrame();
        if !r.Frame? {
          assert frames + [] == frames;
          return;
        }
        frames := frames + [r.frame];
        assert frames + Split(input[pos..]) == frames[..|frames| - 1] + ([r.frame] + Split(input[pos..]));
      }
    }

    /** The C++ gateway's reader: only the header is received. */
    method CppReceiveBody() returns (ok: bool, body: Bytes)
      requires pos <= |input|
      modifies this
      ensures pos <= |input|
      ensures ok == CppAccepts(old(input[pos..]))
      ensures ok ==> var s := old(input[pos..]);
                     body == s[PREFIX..PREFIX + HeaderLength(s)] && pos == old(pos) + PREFIX + |body|
      ensures input[pos..] == CppRest(old(input[pos..]))
    {
      ghost var s := input[pos..];
      var prefix := RecvAll(PREFIX);
      assert input[pos..] == s[|prefix|..];
      if |prefix| < PREFIX { return false, []; }
      assert prefix == s[..8] && s[..8][..4] == s[..4] && s[..8][4..8] == s[4..8];
      var total, hlen := FromLittle(prefix[..4]), FromLittle(prefix[4..8]);
      if total < PREFIX + hlen || hlen > MAX_HEADER { return false, []; }
      body := RecvAll(hlen);
      assert input[pos..] == s[PREFIX + |body|..];
      ok := |body| == hlen;
    }

    method RecvInto(buf: array<Byte>, off: nat, n: nat) returns (k: nat)
      requires pos <= |input| && 0 < n && off + n <= buf.Length
      modifies this, buf
      ensures old(pos) <= pos <= |input| && k == pos - old(pos) && k <= n
      ensures k == 0 <==> old(pos) == |input|
      ensures buf[off..off + k] == input[old(pos)..pos] && buf[..off] == old(buf[..off])
    {
      var chunk := Recv(n);
      k := |chunk|;
      var j := 0;
      while j < k
        invariant 0 <= j <= k && buf[off..off + j] == chunk[..j] && buf[..off] == old(buf[..off])
        invariant old(pos) <= pos <= |input| && chunk == input[old(pos)..pos]
      {
        buf[off + j] := chunk[j];
        j := j + 1;
      }
      assert chunk[..k] == chunk;
    }
  }
}
