/**
 Base64 (section 4 of RFC 4648) as hash.cpp encodes and decodes it.  The decoder keeps a
 32-bit accumulator it never masks, and skips every byte outside the alphabet.
 */
module Base64 {
  import opened Wrappers
  import Powers

  type Byte = b: int | 0 <= b < 256
  type Sextet = v: int | 0 <= v < 64

  const UPPER: string := "ABCDEFGHIJKLMNOPQRSTUVWXYZ"
  const LOWER: string := "abcdefghijklmnopqrstuvwxyz"
  const DIGITS: string := "0123456789"
  const ALPHABET: string := UPPER + LOWER + DIGITS + "+/"

  function Char(v: Sextet): char
  {
    ALPHABET[v]
  }

  function Val(c: char): Option<Sextet>
  {
    if 'A' <= c <= 'Z' then Some(c as int - 'A' as int)
    else if 'a' <= c <= 'z' then Some(c as int - 'a' as int + 26)
    else if '0' <= c <= '9' then Some(c as int - '0' as int + 52)
    else if c == '+' then Some(62)
    else if c == '/' then Some(63)
    else None
  }

  lemma UpperAt(v: nat)
    requires v < 26
    ensures UPPER[v] as int == 'A' as int + v
  {
  }

  lemma LowerAt(v: nat)
    requires v < 26
    ensures LOWER[v] as int == 'a' as int + v
  {
  }

  lemma DigitAt(v: nat)
    requires v < 10
    ensures DIGITS[v] as int == '0' as int + v
  {
  }

  /** b64_val inverts the table. */
  lemma CharVal(v: Sextet)
    ensures Val(Char(v)) == Some(v)
  {
    if v < 26 {
      UpperAt(v);
    } else if v < 52 {
      LowerAt(v - 26);
    } else if v < 62 {
      DigitAt(v - 52);
    }
  }

  // ---------------------------------------------------------------- encoding

  /** Three bytes are four sextets. */
  function Quantum(a: Byte, b: Byte, c: Byte): (r: seq<Sextet>)
    ensures |r| == 4
  {
    [a / 4, a % 4 * 16 + b / 16, b % 16 * 4 + c / 64, c % 64]
  }

  function Chars(vs: seq<Sextet>): (r: string)
    ensures |r| == |vs|
  {
    seq(|vs|, i requires 0 <= i < |vs| => Char(vs[i]))
  }

  function Encode(d: seq<Byte>): string
  {
    if d == [] then ""
    else if |d| == 1 then Chars(Quantum(d[0], 0, 0)[..2]) + "=="
    else if |d| == 2 then Chars(Quantum(d[0], d[1], 0)[..3]) + "="
    else Chars(Quantum(d[0], d[1], d[2])) + Encode(d[3..])
  }

  lemma NoPadding(vs: seq<Sextet>)
    ensures forall i :: 0 <= i < |vs| ==> Chars(vs)[i] != '='
  {
    forall i | 0 <= i < |vs|
      ensures Char(vs[i]) != '='
    {
      CharVal(vs[i]);
    }
  }

  /** Four characters for every three bytes begun; the last group is filled up with = where
      bytes are missing, and everything else is of the alphabet. */
  lemma {:induction false} EncodedPadding(d: seq<Byte>)
    ensures |Encode(d)| == (|d| + 2) / 3 * 4
    ensures forall i :: 0 <= i < |Encode(d)| ==> (Encode(d)[i] == '=' <==> i >= |Encode(d)| - (3 - |d| % 3) % 3)
  {
    hide Chars, Quantum;
    if |d| == 1 {
      NoPadding(Quantum(d[0], 0, 0)[..2]);
    } else if |d| == 2 {
      NoPadding(Quantum(d[0], d[1], 0)[..3]);
    } else if |d| >= 3 {
      NoPadding(Quantum(d[0], d[1], d[2]));
      EncodedPadding(d[3..]);
    }
  }

  lemma Letters()
    ensures Char(25) == 'Z' && Char(38) == 'm' && Char(61) == '9' && Char(47) == 'v' && Char(24) == 'Y'
    ensures Char(50) == 'y' && Char(32) == 'g' && Char(60) == '8' && Char(5) == 'F'
  {
  }

  /** The test vectors f and fo of section 10 of RFC 4648, ... */
  lemma ShortVectors()
    ensures Encode([102]) == "Zg==" && Encode([102, 111]) == "Zm8="
  {
    Letters();
    hide Char;
    assert Quantum(102, 0, 0)[..2] == [25, 32] && Quantum(102, 111, 0)[..3] == [25, 38, 60];
    hide Quantum;
    assert Chars([25, 32]) == "Zg" && Chars([25, 38, 60]) == "Zm8";
    hide Chars;
  }

  /** ... and foo and foobar. */
  lemma LongVectors()
    ensures Encode([102, 111, 111]) == "Zm9v" && Encode([102, 111, 111, 98, 97, 114]) == "Zm9vYmFy"
  {
    Letters();
    hide Char;
    assert Quantum(102, 111, 111) == [25, 38, 61, 47] && Quantum(98, 97, 114) == [24, 38, 5, 50];
    hide Quantum;
    assert Chars([25, 38, 61, 47]) == "Zm9v" && Chars([24, 38, 5, 50]) == "YmFy";
    hide Chars;
    Three(98, 97, 114, []);
    Three(102, 111, 111, []);
    assert [98, 97, 114] + [] == [98, 97, 114] && [102, 111, 111] + [] == [102, 111, 111];
    Three(102, 111, 111, [98, 97, 114]);
    assert [102, 111, 111] + [98, 97, 114] == [102, 111, 111, 98, 97, 114];
    hide Encode;
    assert Encode([]) == "" by { NoBytes(); }
  }

  lemma NoBytes()
    ensures Encode([]) == ""
  {
  }

  lemma Three(a: Byte, b: Byte, c: Byte, rest: seq<Byte>)
    ensures Encode([a, b, c] + rest) == Chars(Quantum(a, b, c)) + Encode(rest)
  {
    assert ([a, b, c] + rest)[3..] == rest;
  }

  // ---------------------------------------------------------------- decoding

  /** The sextets of the alphabet bytes of s; all else, padding included, is skipped. */
  function Sextets(s: string): seq<Sextet>
  {
    if s == [] then []
    else (match Val(s[0]) case Some(v) => [v] case None => []) + Sextets(s[1..])
  }

  function First(a: Sextet, b: Sextet): Byte
  {
    (a as int) * 4 + b / 16
  }

  function Second(b: Sextet, c: Sextet): Byte
  {
    (b as int) % 16 * 16 + c / 4
  }

  function Third(c: Sextet, d: Sextet): Byte
  {
    (c as int) % 4 * 64 + d
  }

  /** Four sextets are three bytes, three are two, two are one. */
  function Bytes(vs: seq<Sextet>): seq<Byte>
  {
    if |vs| < 2 then []
    else if |vs| == 2 then [First(vs[0], vs[1])]
    else if |vs| == 3 then [First(vs[0], vs[1]), Second(vs[1], vs[2])]
    else [First(vs[0], vs[1]), Second(vs[1], vs[2]), Third(vs[2], vs[3])] + Bytes(vs[4..])
  }

  function Decode(s: string): seq<Byte>
  {
    Bytes(Sextets(s))
  }

  lemma {:induction false} SextetsConcat(s: string, t: string)
    ensures Sextets(s + t) == Sextets(s) + Sextets(t)
  {
    if s == [] {
      assert s + t == t;
    } else {
      assert (s + t)[1..] == s[1..] + t;
      SextetsConcat(s[1..], t);
    }
  }

  lemma {:induction false} SextetsOfChars(vs: seq<Sextet>)
    ensures Sextets(Chars(vs)) == vs
  {
    if vs != [] {
      CharVal(vs[0]);
      assert Chars(vs)[1..] == Chars(vs[1..]);
      SextetsOfChars(vs[1..]);
    }
  }

  lemma PaddingSkipped()
    ensures Sextets("==") == [] && Sextets("=") == []
  {
    assert "=="[1..] == "=";
  }

  lemma QuantumBytes(a: Byte, b: Byte, c: Byte)
    ensures var q := Quantum(a, b, c); First(q[0], q[1]) == a && Second(q[1], q[2]) == b && Third(q[2], q[3]) == c
  {
  }

  lemma EncodedSextets(vs: seq<Sextet>, rest: string)
    ensures Sextets(Chars(vs) + rest) == vs + Sextets(rest)
  {
    SextetsConcat(Chars(vs), rest);
    SextetsOfChars(vs);
  }

  /** Decoding gives back every byte string. */
  lemma {:induction false} RoundTrip(d: seq<Byte>)
    ensures Decode(Encode(d)) == d
  {
    hide Sextets, First, Second, Third, Quantum, Chars;
    PaddingSkipped();
    if d == [] {
      NoSextets("");
    } else if |d| == 1 {
      var q := Quantum(d[0], 0, 0);
      QuantumBytes(d[0], 0, 0);
      EncodedSextets(q[..2], "==");
      assert q[..2] + [] == [q[0], q[1]];
    } else if |d| == 2 {
      var q := Quantum(d[0], d[1], 0);
      QuantumBytes(d[0], d[1], 0);
      EncodedSextets(q[..3], "=");
      assert q[..3] + [] == [q[0], q[1], q[2]];
    } else {
      var q := Quantum(d[0], d[1], d[2]);
      QuantumBytes(d[0], d[1], d[2]);
      EncodedSextets(q, Encode(d[3..]));
      RoundTrip(d[3..]);
      assert (q + Sextets(Encode(d[3..])))[4..] == Sextets(Encode(d[3..]));
      assert d == [d[0], d[1], d[2]] + d[3..];
    }
  }

  /** Bytes outside the alphabet change nothing, wherever they are. */
  lemma NoiseIgnored(a: string, noise: string, b: string)
    requires forall i :: 0 <= i < |noise| ==> Val(noise[i]) == None
    ensures Decode(a + noise + b) == Decode(a + b)
  {
    SextetsConcat(a + noise, b);
    SextetsConcat(a, noise);
    SextetsConcat(a, b);
    NoSextets(noise);
    assert Sextets(a) + [] + Sextets(b) == Sextets(a) + Sextets(b);
  }

  lemma {:induction false} NoSextets(noise: string)
    requires forall i :: 0 <= i < |noise| ==> Val(noise[i]) == None
    ensures Sextets(noise) == []
  {
    if noise != [] { NoSextets(noise[1..]); }
  }

  // ---------------------------------------------------------------- the loops

  const WORD: int := 0x1_0000_0000

  predicate Pending(bits: nat)
  {
    bits == 0 || bits == 2 || bits == 4 || bits == 6
  }

  /** 2 to the number of bits left over. */
  function Size(bits: nat): (p: nat)
    requires Pending(bits)
    ensures p > 0
  {
    if bits == 0 then 1 else if bits == 2 then 4 else if bits == 4 then 16 else 64
  }

  /** Decoding one sextet at a time, with `bits` bits of value p left over. */
  function Stream(p: nat, bits: nat, vs: seq<Sextet>): seq<Byte>
    requires Pending(bits) && p < Size(bits)
    decreases |vs|
  {
    if vs == [] then []
    else
      var v: int := vs[0];
      if bits == 0 then Stream(v, 6, vs[1..])
      else if bits == 2 then [p * 64 + v] + Stream(0, 0, vs[1..])
      else if bits == 4 then [p * 16 + v / 4] + Stream(v % 4, 2, vs[1..])
      else [p * 4 + v / 16] + Stream(v % 16, 4, vs[1..])
  }

  lemma StreamEnd(p: nat, bits: nat)
    requires Pending(bits) && p < Size(bits)
    ensures Stream(p, bits, []) == [] && Sextets("") == []
  {
  }

  /** After four sextets nothing is left over. */
  lemma FourSteps(a: Sextet, b: Sextet, c: Sextet, d: Sextet, rest: seq<Sextet>)
    ensures Stream(0, 0, [a, b, c, d] + rest) == [First(a, b), Second(b, c), Third(c, d)] + Stream(0, 0, rest)
  {
    var s1, s2, s3 := [b, c, d] + rest, [c, d] + rest, [d] + rest;
    assert ([a, b, c, d] + rest)[1..] == s1 && s1[1..] == s2 && s2[1..] == s3 && s3[1..] == rest;
    assert Stream(0, 0, [a, b, c, d] + rest) == Stream(a, 6, s1);
    assert Stream(a, 6, s1) == [First(a, b)] + Stream(b as int % 16, 4, s2);
    assert Stream(b as int % 16, 4, s2) == [Second(b, c)] + Stream(c as int % 4, 2, s3);
    assert Stream(c as int % 4, 2, s3) == [Third(c, d)] + Stream(0, 0, rest);
  }

  lemma {:induction false} StreamIsBytes(vs: seq<Sextet>)
    ensures Stream(0, 0, vs) == Bytes(vs)
    decreases |vs|
  {
    if |vs| >= 4 {
      hide Stream, First, Second, Third;
      StreamIsBytes(vs[4..]);
      FourSteps(vs[0], vs[1], vs[2], vs[3], vs[4..]);
      assert vs == [vs[0], vs[1], vs[2], vs[3]] + vs[4..];
    } else if |vs| >= 2 {
      hide Sextets;
      var s1, s2 := vs[1..], vs[2..];
      assert s1[1..] == s2 && s1[0] == vs[1];
      assert Stream(0, 0, vs) == Stream(vs[0], 6, s1);
      assert Stream(vs[0], 6, s1) == [First(vs[0], vs[1])] + Stream(vs[1] as int % 16, 4, s2);
      if |vs| == 3 {
        assert s2[1..] == [] && s2[0] == vs[2];
        StreamEnd(vs[2] as int % 4, 2);
        assert Stream(vs[1] as int % 16, 4, s2) == [Second(vs[1], vs[2])] + [];
      } else {
        StreamEnd(vs[1] as int % 16, 4);
      }
    }
  }

  /** The accumulator wraps, but its low bits are the ones that were put in last. */
  lemma Wraps(acc: nat, v: Sextet)
    requires acc < WORD
    ensures (acc * 64 + v) % WORD == acc % 0x400_0000 * 64 + v
  {
    Powers.DivUnique(acc * 64 + v, WORD, acc / 0x400_0000, acc % 0x400_0000 * 64 + v);
  }

  lemma Accumulate(acc: nat, v: Sextet)
    requires acc < 0x400_0000
    ensures (acc * 64 + v) % 64 == v && (acc * 64 + v) % 256 == acc % 4 * 64 + v
    ensures (acc * 64 + v) % 1024 == acc % 16 * 64 + v && (acc * 64 + v) % 4096 == acc % 64 * 64 + v
  {
    Powers.DivUnique(acc * 64 + v, 64, acc, v);
    Powers.DivUnique(acc * 64 + v, 256, acc / 4, acc % 4 * 64 + v);
    Powers.DivUnique(acc * 64 + v, 1024, acc / 16, acc % 16 * 64 + v);
    Powers.DivUnique(acc * 64 + v, 4096, acc / 64, acc % 64 * 64 + v);
  }

  lemma LowBits(acc: nat)
    ensures acc % 0x400_0000 % 4 == acc % 4 && acc % 0x400_0000 % 16 == acc % 16 && acc % 0x400_0000 % 64 == acc % 64
  {
  }

  /** The byte pushed is the eight bits above those that stay. */
  lemma TopByte(w: nat, p: nat, v: Sextet)
    ensures w % 1024 == p * 64 + v ==> w / 4 % 256 == p * 16 + v / 4 && w % 4 == v as int % 4
    ensures w % 4096 == p * 64 + v ==> w / 16 % 256 == p * 4 + v / 16 && w % 16 == v as int % 16
  {
    if w % 1024 == p * 64 + v {
      Powers.DivUnique(w, 4, 256 * (w / 1024) + p * 16 + v / 4, v as int % 4);
      Powers.DivUnique(256 * (w / 1024) + p * 16 + v / 4, 256, w / 1024, p * 16 + v / 4);
    }
    if w % 4096 == p * 64 + v {
      Powers.DivUnique(w, 16, 256 * (w / 4096) + p * 4 + v / 16, v as int % 16);
      Powers.DivUnique(256 * (w / 4096) + p * 4 + v / 16, 256, w / 4096, p * 4 + v / 16);
    }
  }

  /** One step of the loop, on the word that wraps. */
  lemma DecodeStep(acc: nat, bits: nat, v: Sextet, vs: seq<Sextet>)
    requires acc < WORD && Pending(bits) && vs != [] && vs[0] == v
    ensures var w, whole := (acc * 64 + v) % WORD, Stream(acc % Size(bits), bits, vs);
            if bits == 0 then whole == Stream(w % Size(6), 6, vs[1..])
            else whole == [w / Size(bits - 2) % 256] + Stream(w % Size(bits - 2), bits - 2, vs[1..])
  {
    var low, w := acc % 0x400_0000, (acc * 64 + v) % WORD;
    Wraps(acc, v);
    Accumulate(low, v);
    LowBits(acc);
    TopByte(w, acc % Size(bits), v);
    hide Sextets;
  }

  /** b64_decode's loop. */
  method B64Decode(s: string) returns (out: seq<Byte>)
    ensures out == Decode(s)
  {
    hide Bytes, Stream, Size;
    var acc: nat, bits: nat := 0, 0;
    out := [];
    var i := 0;
    StreamIsBytes(Sextets(s));
    NoBits(acc);
    assert s[0..] == s;
    while i < |s|
      invariant 0 <= i <= |s| && acc < WORD && Pending(bits)
      invariant Decode(s) == out + Stream(acc % Size(bits), bits, Sextets(s[i..]))
    {
      var c := s[i];
      ghost var vs := Sextets(s[i..]);
      assert s[i..][1..] == s[i + 1..];
      i := i + 1;
      assert Val(c) == None ==> vs == [] + Sextets(s[i..]) == Sextets(s[i..]);
      if c == '=' || c == '\n' || c == '\r' { continue; }
      var v := Val(c);
      if v == None { continue; }
      assert vs[1..] == Sextets(s[i..]) && vs[0] == v.value;
      DecodeStep(acc, bits, v.value, vs);
      acc := (acc * 64 + v.value) % WORD;
      bits := bits + 6;
      if bits >= 8 {
        bits := bits - 8;
        ghost var before, rest := out, Stream(acc % Size(bits), bits, vs[1..]);
        out := out + [acc / Size(bits) % 256];
        assert out + rest == before + ([acc / Size(bits) % 256] + rest);
      }
    }
    assert s[i..] == "";
    StreamEnd(acc % Size(bits), bits);
  }

  lemma NoBits(acc: nat)
    ensures acc % Size(0) == 0
  {
  }

  lemma EncodeThree(d: seq<Byte>)
    requires |d| >= 3
    ensures var q := Quantum(d[0], d[1], d[2]);
            Encode(d) == [Char(q[0]), Char(q[1]), Char(q[2]), Char(q[3])] + Encode(d[3..])
  {
    hide Quantum, Char, Chars;
    FourChars(Quantum(d[0], d[1], d[2]));
  }

  lemma FourChars(q: seq<Sextet>)
    requires |q| == 4
    ensures Chars(q) == [Char(q[0]), Char(q[1]), Char(q[2]), Char(q[3])]
  {
    hide Char;
  }

  lemma EncodeFew(d: seq<Byte>)
    requires |d| < 3
    ensures d == [] ==> Encode(d) == ""
    ensures |d| == 1 ==> var q := Quantum(d[0], 0, 0); Encode(d) == [Char(q[0]), Char(q[1]), '=', '=']
    ensures |d| == 2 ==> var q := Quantum(d[0], d[1], 0); Encode(d) == [Char(q[0]), Char(q[1]), Char(q[2]), '=']
  {
    hide Quantum, Char;
    if |d| == 1 {
      var q := Quantum(d[0], 0, 0);
      assert Chars(q[..2]) == [Char(q[0]), Char(q[1])];
    } else if |d| == 2 {
      var q := Quantum(d[0], d[1], 0);
      assert Chars(q[..3]) == [Char(q[0]), Char(q[1]), Char(q[2])];
    }
  }

  /** Six bits of a word, from the given place on. */
  function SixBits(v: nat, place: nat): (q: nat)
    requires place > 0
    ensures q < 64
  {
    v / place % 64
  }

  /** b64_encode's loop and its tail. */
  method B64Encode(data: seq<Byte>) returns (out: string)
    ensures out == Encode(data)
  {
    hide Encode, Quantum, Char, SixBits;
    var n := |data|;
    out := "";
    var i := 0;
    assert data[0..] == data;
    while i + 2 < n
      invariant 0 <= i <= n && Encode(data) == out + Encode(data[i..])
    {
      var v := data[i] as int * 65536 + data[i + 1] as int * 256 + data[i + 2];
      Word(data[i], data[i + 1], data[i + 2]);
      EncodeThree(data[i..]);
      out := out + [Char(SixBits(v, 262144))];
      out := out + [Char(SixBits(v, 4096))];
      out := out + [Char(SixBits(v, 64))];
      out := out + [Char(SixBits(v, 1))];
      assert data[i..][3..] == data[i + 3..];
      i := i + 3;
    }
    EncodeFew(data[i..]);
    if i + 1 == n {
      var v := data[i] as int * 65536;
      Word(data[i], 0, 0);
      out := out + [Char(SixBits(v, 262144))];
      out := out + [Char(SixBits(v, 4096))];
      out := out + ['='];
      out := out + ['='];
    } else if i + 2 == n {
      var v := data[i] as int * 65536 + data[i + 1] as int * 256;
      Word(data[i], data[i + 1], 0);
      out := out + [Char(SixBits(v, 262144))];
      out := out + [Char(SixBits(v, 4096))];
      out := out + [Char(SixBits(v, 64))];
      out := out + ['='];
    }
  }

  /** The four six-bit fields of a 24-bit word. */
  lemma Word(a: Byte, b: Byte, c: Byte)
    ensures var v, q := a as int * 65536 + b as int * 256 + c, Quantum(a, b, c);
            SixBits(v, 262144) == q[0] && SixBits(v, 4096) == q[1] && SixBits(v, 64) == q[2] && SixBits(v, 1) == q[3]
  {
    var x: nat, y: nat, z: nat := a, b, c;
    var v := x * 65536 + y * 256 + z;
    Powers.DivUnique(v, 262144, x / 4, x % 4 * 65536 + y * 256 + z);
    Powers.DivUnique(v, 4096, x * 16 + y / 16, y % 16 * 256 + z);
    Powers.DivUnique(v, 64, x * 1024 + y * 4 + z / 64, z % 64);
    Powers.DivUnique(x * 16 + y / 16, 64, x / 4, x % 4 * 16 + y / 16);
    Powers.DivUnique(x * 1024 + y * 4 + z / 64, 64, x * 16 + y / 16, y % 16 * 4 + z / 64);
  }
}
