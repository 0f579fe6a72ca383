/**
 Per-token activation quantisation (fp8_linear.py): the two tiled passes over a matrix, in
 any CTA order, and their error, over the reals; `fl` is the rounding of the divisions.
 */
module Quantize {
  import opened Powers
  import Fp32
  import opened Fp8
  import opened Nearest
  import opened Rounding

  // ---------------------------------------------------------------- the reference rounding

  function Decode(c: nat): real
  {
    CodeSteps(c) as real / 512.0
  }

  /** A code byte, sign bit included, times its row's scale. */
  function Dequantise(code: nat, scale: real): real
    requires code < 256
  {
    if code >= 128 then -(scale * Decode(code - 128)) else scale * Decode(code)
  }

  /** The code values, counted in subnormal steps. */
  function Table(): (p: seq<real>)
    ensures |p| == 128 && forall c :: 0 <= c < 128 ==> p[c] == CodeSteps(c) as real
  {
    seq(128, (c: nat) => CodeSteps(c) as real)
  }

  /** The code of a magnitude counted in subnormal steps. */
  function Encode(t: real): nat
  {
    Round(Table(), t)
  }

  lemma TableIncreasing()
    ensures Increasing(Table())
  {
    forall i, j | 0 <= i < j < 128
      ensures Table()[i] < Table()[j]
    {
      StepsMono(i, j);
    }
  }

  /** A nearest code lies between its two midpoints. */
  lemma AboveLower(c: nat, v: nat, step: nat)
    requires step > 0 && c > 0 && NearestEven(c, v, step)
    ensures var m := CodeSteps(c - 1) * step + CodeSteps(c) * step; 2 * v > m || (2 * v == m && c % 2 == 0)
  {
    assert AsNear(c, c - 1, v, step);
    StepsLess(c - 1, c, step);
  }

  lemma BelowUpper(c: nat, v: nat, step: nat)
    requires step > 0 && c < 127 && NearestEven(c, v, step)
    ensures var m := CodeSteps(c) * step + CodeSteps(c + 1) * step; 2 * v < m || (2 * v == m && c % 2 == 0)
  {
    assert AsNear(c, c + 1, v, step);
    StepsLess(c, c + 1, step);
  }

  lemma MidpointTransfer(a: nat, b: nat, step: nat, v: nat, t: real)
    requires step > 0 && t == v as real / step as real
    ensures (2.0 * t < a as real + b as real) == (2 * v < a * step + b * step)
    ensures (2.0 * t == a as real + b as real) == (2 * v == a * step + b * step)
  {
    var u, m := step as real, a as real + b as real;
    assert 2.0 * t * u == (2 * v) as real;
    MidpointProduct(a, b, step);
    CompareScaled(2.0 * t, m, u, 2 * v, a * step + b * step);
  }

  lemma CompareScaled(a: real, b: real, u: real, m: int, n: int)
    requires u > 0.0 && a * u == m as real && b * u == n as real
    ensures (a < b) == (m < n) && (a == b) == (m == n)
  {
    ScaledOrder(a, b, u);
  }

  lemma MidpointProduct(a: nat, b: nat, step: nat)
    ensures (a as real + b as real) * step as real == (a * step + b * step) as real
  {
  }

  /** On a value a float holds exactly, the reference over the reals is the code the
      Triton cast computes from the bits (2^140 units of 2^-149 make a step). */
  lemma BridgeToBits(ab: nat, k: nat)
    requires StepExponent(k) && ab <= OVERFLOW_BITS
    ensures TritonMagnitude(ab) == Encode(Fp32.Value(ab) as real / Pow2(k) as real)
  {
    var c := TritonCode(ab, k);
    CodeIsEncode(c, Fp32.Value(ab), Pow2(k));
  }

  lemma TritonCode(ab: nat, k: nat) returns (c: nat)
    requires StepExponent(k) && ab <= OVERFLOW_BITS
    ensures c == TritonMagnitude(ab) && NearestEven(c, Fp32.Value(ab), Pow2(k))
  {
    TritonRoundsToNearest(ab, k);
    c := TritonMagnitude(ab);
  }

  lemma CodeIsEncode(c: nat, v: nat, step: nat)
    requires step > 0 && NearestEven(c, v, step)
    ensures c == Encode(v as real / step as real)
  {
    var t := v as real / step as real;
    if c > 0 { EncodeAbove(c, v, step, t); }
    if c < 127 { EncodeBelow(c, v, step, t); }
    TableIncreasing();
    SearchIsUnique(Table(), t, 0, c);
  }

  lemma EncodeAbove(c: nat, v: nat, step: nat, t: real)
    requires step > 0 && c > 0 && NearestEven(c, v, step) && t == v as real / step as real
    ensures !BelowMidpoint(Table(), c - 1, t)
  {
    AboveLower(c, v, step);
    MidpointTransfer(CodeSteps(c - 1), CodeSteps(c), step, v, t);
  }

  lemma EncodeBelow(c: nat, v: nat, step: nat, t: real)
    requires step > 0 && c < 127 && NearestEven(c, v, step) && t == v as real / step as real
    ensures BelowMidpoint(Table(), c, t)
  {
    BelowUpper(c, v, step);
    MidpointTransfer(CodeSteps(c), CodeSteps(c + 1), step, v, t);
  }

  // ---------------------------------------------------------------- the error bound

  /** Gaps are one step, or at most an eighth of the point below them. */
  predicate GapOk(below: real, above: real)
  {
    above == below + 1.0 || 8.0 * (above - below) <= below
  }

  lemma {:induction false} GapBound(c: nat)
    ensures Gap(c) == 1 || 8 * Gap(c) <= CodeSteps(c)
  {
    if c >= 16 { GapBound(c - 8); }
  }

  lemma TableGaps(c: nat)
    requires c < 127
    ensures Table()[0] == 0.0 && GapOk(Table()[c], Table()[c + 1])
  {
    GapBound(c);
    StepGap(c);
  }

  lemma NotNaN(t: real)
    requires t <= 464.0 * 512.0
    ensures Round(Table(), t) <= 126
  {
    assert CodeSteps(126) == 448 * 512 && CodeSteps(127) == 480 * 512;
    assert BelowMidpoint(Table(), 126, t);
  }

  lemma HalfGap(t: real, p: seq<real>, c: nat)
    requires 0.0 <= t && c + 1 < |p| && p[0] == 0.0 && c == Round(p, t)
    requires GapOk(p[c], p[c + 1]) && (c > 0 ==> GapOk(p[c - 1], p[c]))
    ensures Abs(t - p[c]) <= Max(t / 16.0, 0.5)
  {
  }

  /** The code of a magnitude is the nearest in the table, ties to even, and no other is. */
  lemma EncodeExactlyWhen(t: real, c: nat)
    ensures NearestEvenIn(Table(), c, t) <==> c == Encode(t)
  {
    TableIncreasing();
    NearestExactlyWhen(Table(), c, t);
  }

  /** Up to 464 a value never reaches the NaN code and is off by at most a
      sixteenth of itself or half a subnormal step. */
  lemma EncodeError(t: real, p: seq<real>, c: nat)
    requires 0.0 <= t <= 464.0 * 512.0 && p == Table() && c == Round(p, t)
    ensures NearestEvenIn(p, c, t) && c <= 126 && Abs(t - CodeSteps(c) as real) <= Max(t / 16.0, 0.5)
  {
    hide NearestEvenIn, Round, GapOk, CodeSteps, Increasing;
    TableIncreasing();
    RoundIsNearest(p, t);
    NotNaN(t);
    StepsError(t, p, c);
  }

  lemma StepsError(t: real, p: seq<real>, c: nat)
    requires 0.0 <= t && p == Table() && c == Round(p, t) && c <= 126
    ensures Abs(t - CodeSteps(c) as real) <= Max(t / 16.0, 0.5)
  {
    hide Round, GapOk, CodeSteps;
    TableGaps(c);
    if c > 0 { TableGaps(c - 1); }
    HalfGap(t, p, c);
  }

  // ---------------------------------------------------------------- the two passes

  type Matrix = seq<seq<real>>

  ghost predicate Shape(x: Matrix, rows: nat, cols: nat)
  {
    |x| == rows && forall r :: 0 <= r < rows ==> |x[r]| == cols
  }

  /** The largest |row[j]| for lo <= j < hi, and 0 when there is none. */
  function AbsMax(row: seq<real>, lo: nat, hi: nat): (m: real)
    requires lo <= hi <= |row|
    ensures 0.0 <= m && forall j :: lo <= j < hi ==> Abs(row[j]) <= m
    ensures m == 0.0 || exists j :: lo <= j < hi && m == Abs(row[j])
    decreases hi - lo
  {
    if lo == hi then 0.0 else Max(AbsMax(row, lo, hi - 1), Abs(row[hi - 1]))
  }

  lemma AbsMaxWithin(row: seq<real>, lo: nat, hi: nat)
    requires lo <= hi <= |row|
    ensures AbsMax(row, lo, hi) <= AbsMax(row, 0, |row|)
  {
  }

  /** The unmasked columns of tile t. */
  function TileLo(t: nat, blockK: nat, cols: nat): (lo: nat)
    ensures lo <= cols
  {
    if t * blockK < cols then t * blockK else cols
  }

  function TileHi(t: nat, blockK: nat, cols: nat): (hi: nat)
    ensures TileLo(t, blockK, cols) <= hi <= cols
    ensures hi <= TileLo(t, blockK, cols) + blockK
  {
    TileLo(t + 1, blockK, cols)
  }

  /** One CTA's contribution to one row: its masked column tile. */
  datatype Atomic = Atomic(row: nat, tile: nat)

  ghost predicate Covers(order: seq<Atomic>, rows: nat, tiles: nat)
  {
    && (forall a <- order :: a.row < rows && a.tile < tiles)
    && (forall r: nat, t: nat :: r < rows && t < tiles ==> Atomic(r, t) in order)
  }

  /** _act_amax_kernel: the atomic maxima of all tiles, in whatever order they land,
      leave the exact row maximum. */
  method AmaxPass(x: Matrix, cols: nat, blockK: nat, tiles: nat, order: seq<Atomic>, rawMax: array<real>)
    requires Shape(x, rawMax.Length, cols) && blockK > 0
    requires cols <= tiles * blockK
    requires Covers(order, rawMax.Length, tiles)
    requires forall r :: 0 <= r < rawMax.Length ==> rawMax[r] == 0.0
    modifies rawMax
    ensures forall r :: 0 <= r < rawMax.Length ==> rawMax[r] == AbsMax(x[r], 0, cols)
  {
    var i := 0;
    while i < |order|
      invariant 0 <= i <= |order|
      invariant forall r :: 0 <= r < rawMax.Length ==> 0.0 <= rawMax[r] <= AbsMax(x[r], 0, cols)
      invariant forall a <- order[..i] ::
                  AbsMax(x[a.row], TileLo(a.tile, blockK, cols), TileHi(a.tile, blockK, cols)) <= rawMax[a.row]
    {
      var r, t := order[i].row, order[i].tile;
      assert order[i] in order;
      var lo, hi := TileLo(t, blockK, cols), TileHi(t, blockK, cols);
      AbsMaxWithin(x[r], lo, hi);
      rawMax[r] := Max(rawMax[r], AbsMax(x[r], lo, hi));
      assert order[..i + 1] == order[..i] + [order[i]];
      i := i + 1;
    }
    assert order[..i] == order;
    forall r | 0 <= r < rawMax.Length
      ensures rawMax[r] == AbsMax(x[r], 0, cols)
    {
      if AbsMax(x[r], 0, cols) != 0.0 {
        var j :| 0 <= j < cols && AbsMax(x[r], 0, cols) == Abs(x[r][j]);
        var t := TileOf(j, blockK, tiles, cols);
        assert Atomic(r, t) in order;
      }
    }
  }

  lemma TileOf(j: nat, blockK: nat, tiles: nat, cols: nat) returns (t: nat)
    requires blockK > 0 && j < cols <= tiles * blockK
    ensures t < tiles && TileLo(t, blockK, cols) <= j < TileHi(t, blockK, cols)
  {
    var r;
    t, r := Euclid(j, blockK);
    if t >= tiles { MulMono(tiles, t, blockK); }
  }

  const FLOOR: real := 0.000000000001

  /** The largest magnitude a float can have, rounded up. */
  const MAX_FLOAT: real := 350000000000000000000000000000000000000.0

  /** fl is the rounding of a division to fp32; with no rounding fl(t) is t. */
  function Scale(fl: real -> real, raw: real): (s: real)
  {
    Max(fl(raw / 448.0), fl(FLOOR))
  }

  /** The quotient by the scale, and its nearest code with the sign bit. */
  function CastCode(fl: real -> real, x: real, scale: real): (code: nat)
    requires scale > 0.0
    ensures code < 256
  {
    Encode(512.0 * fl(Abs(x) / scale)) + if x < 0.0 then 128 else 0
  }

  /** What dequantisation returns is within a sixteenth of the element's magnitude or
      half a subnormal step of its scale, times slack, and the code is not NaN. */
  ghost predicate Recovered(x: real, code: int, scale: real, slack: real)
  {
    0 <= code < 256 && code % 128 <= 126 && Within(x, Dequantise(code, scale), scale, slack)
  }

  predicate Within(x: real, back: real, scale: real, slack: real)
  {
    Abs(x - back) <= slack * Max(Abs(x) / 16.0, scale / 1024.0)
  }

  /** The bound of exact arithmetic loosens by at most this factor. */
  const SLACK: real := 1.00001

  ghost predicate Exact(fl: real -> real)
  {
    forall t :: fl(t) == t
  }

  /** The scale is positive, and the largest element is hardly more than 448 scales. */
  lemma ScaleBound(fl: real -> real, raw: real)
    requires Accurate(fl) && 0.0 <= raw <= MAX_FLOAT
    ensures FLOOR / 2.0 <= Scale(fl, raw) && raw <= 448.01 * Scale(fl, raw)
    ensures Exact(fl) ==> raw <= 448.0 * Scale(fl, raw)
  {
    var t := raw / 448.0;
    assert Abs(fl(t) - t) <= EPS * t + ETA;
    assert Abs(fl(FLOOR) - FLOOR) <= EPS * FLOOR + ETA;
  }

  /** 448 scales are the row maximum, up to the accuracy of a division, or 448 * 10^-12 if the
      row is smaller. */
  predicate ScaleNear(amax: real, s: real)
  {
    var top := Max(amax, 448.0 * 0.000000000001);
    Abs(448.0 * s - top) <= EPS * top + 448.0 * ETA
  }

  predicate ScaleExact(amax: real, s: real)
  {
    if amax >= 448.0 * 0.000000000001 then 448.0 * s == amax else s == 0.000000000001
  }

  /** The largest element of a row uses the largest code, and comes back as it was. */
  ghost predicate TopExact(x: real, amax: real, code: int, s: real)
  {
    Abs(x) == amax >= 448.0 * 0.000000000001 ==> 0 <= code < 256 && code % 128 == 126 && Dequantise(code, s) == x
  }

  lemma ScaleRight(fl: real -> real, raw: real)
    requires Accurate(fl) && 0.0 <= raw <= MAX_FLOAT
    ensures ScaleNear(raw, Scale(fl, raw)) && (Exact(fl) ==> ScaleExact(raw, Scale(fl, raw)))
  {
    var t := raw / 448.0;
    assert Abs(fl(t) - t) <= EPS * t + ETA;
    assert Abs(fl(FLOOR) - FLOOR) <= EPS * FLOOR + ETA;
  }

  lemma TopCode(fl: real -> real, x: real, raw: real, s: real)
    requires Exact(fl) && Abs(x) == raw >= 448.0 * 0.000000000001 && s > 0.0 && ScaleExact(raw, s)
    ensures TopExact(x, raw, CastCode(fl, x, s), s)
  {
    hide Encode, Decode;
    var q := Abs(x) / s;
    QuotientIs(Abs(x), s, 448.0);
    assert fl(q) == q;
    EncodeTop();
  }

  lemma TopElement(fl: real -> real, x: real, raw: real, s: real)
    requires s > 0.0 && (Exact(fl) ==> ScaleExact(raw, s))
    ensures Exact(fl) ==> TopExact(x, raw, CastCode(fl, x, s), s)
  {
    hide Exact, ScaleExact, CastCode;
    if Exact(fl) && Abs(x) == raw >= 448.0 * 0.000000000001 { TopCode(fl, x, raw, s); }
  }

  lemma QuotientIs(a: real, s: real, c: real)
    requires s > 0.0 && a == c * s
    ensures a / s == c
  {
  }

  lemma EncodeTop()
    ensures Encode(512.0 * 448.0) == 126 && Decode(126) == 448.0
  {
    assert CodeSteps(126) == 448 * 512;
    EncodeExactlyWhen(512.0 * 448.0, 126);
  }

  /** Every element is recovered from its code, with rounded division as with exact. */
  lemma ElementError(fl: real -> real, x: real, raw: real, scale: real)
    requires Accurate(fl) && Abs(x) <= raw <= MAX_FLOAT && scale == Scale(fl, raw)
    ensures scale > 0.0 && Recovered(x, CastCode(fl, x, scale), scale, SLACK)
    ensures Exact(fl) ==> Recovered(x, CastCode(fl, x, scale), scale, 1.0)
  {
    hide Recovered, Encode, Scale, Exact, Accurate, Max;
    ScaleBound(fl, raw);
    var q := Abs(x) / scale;
    QuotientBound(Abs(x), scale, q);
    RoundedAt(fl, q);
    RoundedElement(x, scale, q, fl(q));
  }

  lemma RoundedAt(fl: real -> real, t: real)
    requires Accurate(fl) && 0.0 <= t <= LARGEST
    ensures fl(t) >= 0.0 && Abs(fl(t) - t) <= EPS * t + ETA && (Exact(fl) ==> fl(t) == t)
  {
  }

  lemma RoundedElement(x: real, s: real, q: real, y: real)
    requires s > 0.0 && 0.0 <= q <= 448.01 && s * q == Abs(x) && y >= 0.0 && Abs(y - q) <= EPS * q + ETA
    ensures var code := Encode(512.0 * y) + if x < 0.0 then 128 else 0;
            Recovered(x, code, s, SLACK) && (y == q ==> Recovered(x, code, s, 1.0))
  {
    hide Recovered, Encode;
    var c := Encode(512.0 * y);
    CodeError(y, c);
    RoundedError(q, y, Decode(c), Max(q / 16.0, 1.0 / 1024.0));
    CodeRecovered(x, s, q, c, SLACK);
    if y == q { CodeRecovered(x, s, q, c, 1.0); }
  }

  /** On bits: where the rounded quotient is the float ab, the code is what the Triton cast
      computes from it, sign bit and all (a step is 2^140 units). */
  lemma CastIsTriton(fl: real -> real, x: real, scale: real, ab: nat, k: nat)
    requires scale > 0.0 && StepExponent(k) && ab <= OVERFLOW_BITS
    requires 512.0 * fl(Abs(x) / scale) == Fp32.Value(ab) as real / Pow2(k) as real
    ensures CastCode(fl, x, scale) == TritonMagnitude(ab) + if x < 0.0 then 128 else 0
  {
    hide Encode, Pow2, TritonMagnitude;
    BridgeToBits(ab, k);
  }

  lemma CodeError(y: real, c: nat)
    requires 0.0 <= y <= 464.0 && c == Encode(512.0 * y)
    ensures c <= 126 && Abs(y - Decode(c)) <= Max(y / 16.0, 1.0 / 1024.0)
  {
    hide Round, Table, CodeSteps, NearestEvenIn;
    EncodeError(512.0 * y, Table(), c);
    StepsToNumber(512.0 * y, CodeSteps(c) as real, y, Decode(c));
  }

  lemma StepsToNumber(t: real, p: real, y: real, d: real)
    requires t == 512.0 * y && d == p / 512.0 && Abs(t - p) <= Max(t / 16.0, 0.5)
    ensures Abs(y - d) <= Max(y / 16.0, 1.0 / 1024.0)
  {
  }

  lemma RoundedError(q: real, y: real, d: real, m: real)
    requires q >= 0.0 && y >= 0.0 && m == Max(q / 16.0, 1.0 / 1024.0)
    requires Abs(y - q) <= EPS * q + ETA && Abs(y - d) <= Max(y / 16.0, 1.0 / 1024.0)
    ensures Abs(q - d) <= SLACK * m && (y == q ==> Abs(q - d) <= m)
  {
  }

  lemma CodeRecovered(x: real, s: real, q: real, c: nat, slack: real)
    requires s > 0.0 && q >= 0.0 && s * q == Abs(x) && slack > 0.0
    requires c <= 126 && Abs(q - Decode(c)) <= slack * Max(q / 16.0, 1.0 / 1024.0)
    ensures Recovered(x, c + (if x < 0.0 then 128 else 0), s, slack)
  {
    ScaledError(q, Decode(c), s, Abs(x), s * Decode(c), slack);
    RecoveredBySign(x, c, s, s * Decode(c), slack);
  }

  lemma QuotientBound(a: real, s: real, q: real)
    requires s > 0.0 && 0.0 <= a <= 448.01 * s && q == a / s
    ensures 0.0 <= q <= 448.01 && s * q == a
  {
    ScaledOrder(448.01, q, s);
    ScaledOrder(q, 0.0, s);
  }

  lemma ScaledError(q: real, d: real, s: real, sq: real, sd: real, slack: real)
    requires s > 0.0 && q >= 0.0 && sq == s * q && sd == s * d && slack > 0.0
    requires Abs(q - d) <= slack * Max(q / 16.0, 1.0 / 1024.0)
    ensures Abs(sq - sd) <= slack * Max(sq / 16.0, s / 1024.0)
  {
    var m := Max(q / 16.0, 1.0 / 1024.0);
    MulLe(s, q - d, slack * m);
    MulLe(s, d - q, slack * m);
    MulSub(s, q, d);
    MulSub(s, d, q);
    assert s * m == Max(sq / 16.0, s / 1024.0) by { ScaledMax(s, q, sq); }
    assert s * (slack * m) == slack * (s * m);
  }

  lemma ScaledMax(s: real, q: real, sq: real)
    requires s > 0.0 && sq == s * q
    ensures s * Max(q / 16.0, 1.0 / 1024.0) == Max(sq / 16.0, s / 1024.0)
  {
    ScaledOrder(q / 16.0, 1.0 / 1024.0, s);
  }

  lemma MulLe(s: real, a: real, b: real)
    requires s >= 0.0 && a <= b
    ensures s * a <= s * b
  {
    assert s * (b - a) >= 0.0;
  }

  lemma MulSub(s: real, a: real, b: real)
    ensures s * (a - b) == s * a - s * b
  {
  }

  lemma RecoveredBySign(x: real, c: nat, s: real, sd: real, slack: real)
    requires c <= 126 && sd == s * Decode(c) && Abs(Abs(x) - sd) <= slack * Max(Abs(x) / 16.0, s / 1024.0)
    ensures Recovered(x, c + (if x < 0.0 then 128 else 0), s, slack)
  {
    SignedWithin(x, sd, s, slack);
    DequantiseSigns(c, s, sd);
  }

  lemma DequantiseSigns(c: nat, s: real, sd: real)
    requires c <= 126 && sd == s * Decode(c)
    ensures Dequantise(c, s) == sd && Dequantise(c + 128, s) == -sd
  {
  }

  lemma SignedWithin(x: real, sd: real, s: real, slack: real)
    requires Abs(Abs(x) - sd) <= slack * Max(Abs(x) / 16.0, s / 1024.0)
    ensures Within(x, if x < 0.0 then -sd else sd, s, slack)
  {
  }

  lemma AbsMaxFinite(x: Matrix, rows: nat, cols: nat)
    requires Shape(x, rows, cols) && Finite(x)
    ensures forall r :: 0 <= r < rows ==> AbsMax(x[r], 0, cols) <= MAX_FLOAT
  {
  }

  ghost predicate Finite(x: Matrix)
  {
    forall r, j :: 0 <= r < |x| && 0 <= j < |x[r]| ==> Abs(x[r][j]) <= MAX_FLOAT
  }

  /** quantize_act with divisions rounded by fl: every element of every row is recovered,
      within the bound of exact arithmetic if they are exact. */
  method QuantizeAct(fl: real -> real, x: Matrix, cols: nat, blockK: nat, tiles: nat, order: seq<Atomic>,
      a8: array2<int>, sa: array<real>)
    requires Accurate(fl) && Shape(x, sa.Length, cols) && Finite(x) && blockK > 0
    requires a8.Length0 == sa.Length && a8.Length1 == cols && cols <= tiles * blockK && tiles > 0
    requires Covers(order, sa.Length, tiles)
    modifies a8, sa
    ensures forall r :: 0 <= r < sa.Length ==> sa[r] > 0.0 && ScaleNear(AbsMax(x[r], 0, cols), sa[r])
    ensures forall r, j :: 0 <= r < sa.Length && 0 <= j < cols ==> Recovered(x[r][j], a8[r, j], sa[r], SLACK)
    ensures Exact(fl) ==> forall r :: 0 <= r < sa.Length ==> ScaleExact(AbsMax(x[r], 0, cols), sa[r])
    ensures Exact(fl) ==> forall r, j :: 0 <= r < sa.Length && 0 <= j < cols ==>
              Recovered(x[r][j], a8[r, j], sa[r], 1.0) && TopExact(x[r][j], AbsMax(x[r], 0, cols), a8[r, j], sa[r])
  {
    hide Recovered, Exact, Accurate, CastCode, Scale, ScaleNear, ScaleExact, TopExact;
    var raw := new real[sa.Length](_ => 0.0);
    AmaxPass(x, cols, blockK, tiles, order, raw);
    AbsMaxFinite(x, sa.Length, cols);
    forall r | 0 <= r < sa.Length
      ensures Scale(fl, raw[r]) > 0.0
    {
      ScaleBound(fl, raw[r]);
    }
    forall r | 0 <= r < sa.Length
      ensures ScaleNear(raw[r], Scale(fl, raw[r])) && (Exact(fl) ==> ScaleExact(raw[r], Scale(fl, raw[r])))
    {
      ScaleRight(fl, raw[r]);
    }
    CastPass(fl, x, cols, blockK, tiles, order, raw, a8, sa);
    forall r, j | 0 <= r < sa.Length && 0 <= j < cols
      ensures Recovered(x[r][j], a8[r, j], sa[r], SLACK) && (Exact(fl) ==> Recovered(x[r][j], a8[r, j], sa[r], 1.0))
      ensures Exact(fl) ==> TopExact(x[r][j], raw[r], a8[r, j], sa[r])
    {
      ElementError(fl, x[r][j], raw[r], sa[r]);
      TopElement(fl, x[r][j], raw[r], sa[r]);
    }
  }

  /** _act_cast_kernel: the scale is stored by the first column tile of each row. */
  method CastPass(fl: real -> real, x: Matrix, cols: nat, blockK: nat, tiles: nat, order: seq<Atomic>,
      rawMax: array<real>, a8: array2<int>, sa: array<real>)
    requires rawMax != sa && rawMax.Length == sa.Length && a8.Length0 == sa.Length && a8.Length1 == cols
    requires Shape(x, sa.Length, cols) && blockK > 0 && cols <= tiles * blockK && tiles > 0
    requires Covers(order, sa.Length, tiles) && forall r :: 0 <= r < sa.Length ==> Scale(fl, rawMax[r]) > 0.0
    modifies a8, sa
    ensures forall r :: 0 <= r < sa.Length ==> sa[r] == Scale(fl, rawMax[r])
    ensures forall r, j :: 0 <= r < sa.Length && 0 <= j < cols ==>
              a8[r, j] == CastCode(fl, x[r][j], Scale(fl, rawMax[r]))
  {
    var i := 0;
    while i < |order|
      invariant 0 <= i <= |order|
      invariant forall a <- order[..i] :: a.tile == 0 ==> sa[a.row] == Scale(fl, rawMax[a.row])
      invariant forall a <- order[..i], j ::
                  TileLo(a.tile, blockK, cols) <= j < TileHi(a.tile, blockK, cols) ==>
                    a8[a.row, j] == CastCode(fl, x[a.row][j], Scale(fl, rawMax[a.row]))
    {
      var r, t := order[i].row, order[i].tile;
      assert order[i] in order;
      var scale := Scale(fl, rawMax[r]);
      if t == 0 { sa[r] := scale; }
      var lo, hi := TileLo(t, blockK, cols), TileHi(t, blockK, cols);
      forall j | lo <= j < hi {
        a8[r, j] := CastCode(fl, x[r][j], scale);
      }
      assert order[..i + 1] == order[..i] + [order[i]];
      i := i + 1;
    }
    assert order[..i] == order;
    forall r | 0 <= r < sa.Length
      ensures sa[r] == Scale(fl, rawMax[r])
    {
      assert Atomic(r, 0) in order;
    }
    forall r, j | 0 <= r < sa.Length && 0 <= j < cols
      ensures a8[r, j] == CastCode(fl, x[r][j], Scale(fl, rawMax[r]))
    {
      var t := TileOf(j, blockK, tiles, cols);
      assert Atomic(r, t) in order;
    }
  }
}
