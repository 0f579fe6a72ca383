/**
 The two fp32 -> fp8 e4m3 casts of the repository: the Triton one
 (fp8_linear.py) and the CUDA one (dit_common.h).  Both are compared with one
 reference, the nearest e4m3 code with ties to even, which neither of them mentions.

 Subnormal results come from a magic-number sum, which rounds to a fixed grid (MagicSum);
 normal ones from a biased shift of the bits, which rounds to the grid of the binade
 (Powers.BiasTrick).  The two ranges meet just below the first normal code.
 */
module Fp8 {
  import opened Powers
  import opened Fp32

  // ---------------------------------------------------------------- the format

  /** The magnitude of code c, counted in subnormal steps of 2^-9: one step per code
      up to 16, then everything doubles with each exponent (eight codes).  CodeFormula
      gives the closed form.  Code 127 (NaN in the format) is given the 480 its bits
      would denote, so that 464 is the midpoint above the largest number 448. */
  function CodeSteps(c: nat): nat
  {
    if c < 16 then c else 2 * CodeSteps(c - 8)
  }

  /** The distance from code c to the next one. */
  function Gap(c: nat): (g: nat)
    ensures g >= 1
  {
    if c < 16 then 1 else 2 * Gap(c - 8)
  }

  /** The step 2^-9 is 2^k units of 2^-149, in which floats are counted. */
  predicate StepExponent(k: nat)
  {
    k == 140
  }

  function Dist(a: nat, b: nat): nat
  {
    if a < b then b - a else a - b
  }

  /** c is the code nearest to the magnitude v; of two equally near, the even one.
      The subnormal step measures `step` of the units v is counted in. */
  ghost predicate NearestEven(c: nat, v: nat, step: nat)
  {
    c <= 127 && forall d: nat :: d <= 127 ==> AsNear(c, d, v, step)
  }

  predicate AsNear(c: nat, d: nat, v: nat, step: nat)
  {
    Closer(c, CodeSteps(c) * step, d, CodeSteps(d) * step, v)
  }

  predicate Closer(c: nat, x: nat, d: nat, y: nat, v: nat)
  {
    Dist(x, v) < Dist(y, v) || (Dist(x, v) == Dist(y, v) && (c % 2 == 0 || d == c))
  }

  // ---------------------------------------------------------------- the two casts

  const MAGIC_TRITON: nat := 0x4B000000   // 8388608.0f
  const MAGIC_CUDA: nat := 0x46C00000     // 24576.0f
  const CUDA_SUB_BASE: nat := 0x46800000  // 16384.0f
  const OVERFLOW_BITS: nat := 0x43E80000  // 464.0f
  const MIN_NORMAL_BITS: nat := 0x3C800000 // 2^-6

  function Signed32(n: nat): int
  {
    var w := n % 0x1_0000_0000;
    if w < 0x8000_0000 then w else w - 0x1_0000_0000
  }

  /** ((ay * 512.0) + magic) - magic, converted to an integer. */
  function TritonSubnormal(ab: nat, magic: nat): nat
  {
    Truncate(AbsSub(Add(ScaleUp(ab, 9), magic), magic))
  }

  function TritonTop(ab: nat): int
  {
    Signed32(ab + 0x7FFFF + ab / 0x100000 % 2) / 0x100000
  }

  /** The selects that follow: subnormal result, carry out of it, overflow. */
  function TritonSelect(top: int, mSub: nat): int
  {
    var e8 := top / 8 - 120;
    var m8 := top % 8;
    var subCarry := mSub >= 8;
    var isSub := e8 <= 0;
    var e8' := if isSub then (if subCarry then 1 else 0) else e8;
    var m8' := if isSub then (if subCarry then 0 else mSub) else m8;
    var overflow := e8' > 15;
    (if overflow then 15 else e8') * 8 + (if overflow then 7 else m8')
  }

  function TritonMagnitude(ab: nat): int
  {
    TritonSelect(TritonTop(ab), TritonSubnormal(ab, MAGIC_TRITON))
  }

  /** _fp32_to_fp8e4m3_rne: the three fields never overlap, so the final ORs add. */
  function TritonCast(bits: nat): int
    requires bits < 0x1_0000_0000
  {
    bits / 0x8000_0000 * 128 + TritonMagnitude(bits % 0x8000_0000)
  }

  /** x | 0x80 and x | 0 for a sign that is one of the two. */
  function OrSign(res: nat, sign: nat): nat
    requires sign == 0 || sign == 0x80
  {
    if sign != 0 && res / 128 % 2 == 0 then res + 128 else res
  }

  function CudaSubnormal(a: nat, magic: nat): nat
  {
    (Add(a, magic) + 0x1_0000_0000 - CUDA_SUB_BASE) % 0x1_0000_0000
  }

  function CudaResult(a: nat): nat
    requires a < 0x8000_0000
  {
    var odd := a / 0x100000 % 2;
    var n := (a + 0xC4000000 + 0x7FFFF + odd) % 0x1_0000_0000;
    if a >= OVERFLOW_BITS then 0x7F
    else if a < MIN_NORMAL_BITS then CudaSubnormal(a, MAGIC_CUDA)
    else n / 0x100000
  }

  /** (unsigned char)(res | sign) keeps the low eight bits. */
  function PackByte(res: nat, sign: nat): nat
    requires sign == 0 || sign == 0x80
  {
    OrSign(res, sign) % 256
  }

  /** (bits >> 24) & 0x80 */
  function SignByte(bits: nat): (sign: nat)
    requires bits < 0x1_0000_0000
    ensures sign == 0 || sign == 0x80
  {
    var high: nat := bits / 0x1000000;
    high / 128 * 128
  }

  /** fp8_rne. */
  function CudaCast(bits: nat): nat
    requires bits < 0x1_0000_0000
  {
    PackByte(CudaResult(bits % 0x8000_0000), SignByte(bits))
  }

  // ---------------------------------------------------------------- the code grid

  lemma {:induction false} StepGap(c: nat)
    ensures CodeSteps(c + 1) == CodeSteps(c) + Gap(c)
  {
    if c >= 16 { StepGap(c - 8); }
  }

  lemma {:induction false} GapFormula(c: nat)
    requires c >= 8
    ensures Gap(c) == Pow2(c / 8 - 1)
  {
    if c >= 16 {
      GapFormula(c - 8);
      assert (c - 8) / 8 == c / 8 - 1;
    }
  }

  /** The e4m3 value table: mantissa/8 below the first binade, 1.mantissa above it. */
  lemma {:induction false} CodeFormula(c: nat)
    ensures CodeSteps(c) == if c < 8 then c else (8 + c % 8) * Pow2(c / 8 - 1)
  {
    if c >= 16 {
      CodeFormula(c - 8);
      DivUnique(c - 8, 8, c / 8 - 1, c % 8);
      assert Pow2(c / 8 - 1) == 2 * Pow2(c / 8 - 2);
      Twice(8 + c % 8, Pow2(c / 8 - 2));
    }
  }

  lemma Twice(a: nat, p: nat)
    ensures a * (2 * p) == 2 * (a * p)
  {
  }

  lemma {:induction false} StepsMono(c: nat, d: nat)
    requires c <= d
    ensures CodeSteps(c) + (d - c) <= CodeSteps(d)
  {
    if c < d {
      StepsMono(c, d - 1);
      StepGap(d - 1);
    }
  }

  lemma StepsLess(c: nat, d: nat, step: nat)
    requires c < d && step > 0
    ensures CodeSteps(c) * step < CodeSteps(d) * step
  {
    StepsMono(c, d);
    MulLess(step, CodeSteps(c), CodeSteps(d));
  }

  /** Rounding between two neighbouring codes is rounding among all of them. */
  lemma NeighbourNearest(q: nat, c: nat, v: nat, step: nat, lo: nat, hi: nat)
    requires step > 0 && q < 127
    requires v == CodeSteps(q) * step + lo && CodeSteps(q + 1) * step == v + hi
    requires c == if lo < hi || (lo == hi && q % 2 == 0) then q else q + 1
    ensures NearestEven(c, v, step)
  {
    forall d: nat | d <= 127
      ensures AsNear(c, d, v, step)
    {
      if d < q { StepsLess(d, q, step); }
      if d > q + 1 { StepsLess(q + 1, d, step); }
      NearerNeighbour(q, CodeSteps(q) * step, CodeSteps(q + 1) * step, d, CodeSteps(d) * step, v);
    }
  }

  /** Every other point is no nearer than the nearer end of the interval. */
  lemma NearerNeighbour(q: nat, a: nat, b: nat, d: nat, s: nat, v: nat)
    requires a <= v <= b
    requires (d < q && s < a) || (d == q && s == a) || (d == q + 1 && s == b) || (d > q + 1 && s > b)
    ensures if v - a < b - v || (v - a == b - v && q % 2 == 0) then Closer(q, a, d, s, v) else Closer(q + 1, b, d, s, v)
  {
  }

  lemma NearestAtMost(c: nat, d: nat, v: nat, step: nat)
    requires step > 0 && NearestEven(c, v, step) && NearestEven(d, v, step)
    ensures c <= d
  {
    assert AsNear(c, d, v, step) && AsNear(d, c, v, step);
    assert d < 127 ==> AsNear(d, d + 1, v, step);
    if d + 1 < c { StepsLess(d + 1, c, step); }
    StepsLess(d, d + 1, step);
  }

  /** There is only one nearest code. */
  lemma NearestUnique(c: nat, d: nat, v: nat, step: nat)
    requires step > 0 && NearestEven(c, v, step) && NearestEven(d, v, step)
    ensures c == d
  {
    NearestAtMost(c, d, v, step);
    NearestAtMost(d, c, v, step);
  }

  /** Rounding is monotone. */
  lemma NearestMonotone(c: nat, v: nat, d: nat, w: nat, step: nat)
    requires step > 0 && NearestEven(c, v, step) && NearestEven(d, w, step) && v <= w
    ensures c <= d
  {
    assert AsNear(c, d, v, step) && AsNear(d, c, w, step);
    if v == w {
      NearestAtMost(c, d, v, step);
    } else if d < c {
      StepsLess(d, c, step);
    }
  }

  // ---------------------------------------------------------------- subnormal results

  lemma GridNearest(v: nat, step: nat)
    requires step > 0 && v < 8 * step
    ensures RoundEven(v, step) <= 8 && NearestEven(RoundEven(v, step), v, step)
  {
    var q, r := Euclid(v, step);
    if q >= 8 { MulMono(8, q, step); assert false; }
    Distribute2(q, 1, step);
    NeighbourNearest(q, RoundEven(v, step), v, step, r, step - r);
  }

  lemma MulLessEq(a: nat, b: nat, c: nat, d: nat)
    requires a < b && c <= d && d > 0
    ensures a * c < b * d
  {
    assert a * c <= a * d by { assert a * (d - c) >= 0; }
    MulLess(d, a, b);
  }

  /** Below 2^-6 a magnitude is less than eight subnormal steps. */
  lemma SubnormalRange(ab: nat, k: nat)
    requires k >= 140 && ab < MIN_NORMAL_BITS
    ensures Value(ab) < 8 * Pow2(k)
  {
    var m, j := Significand(ab), Shift(ab);
    Pow2Mono(j, k - 21);
    MulLessEq(m, 0x1000000, Pow2(j), Pow2(k - 21));
    Pow2Add(21, k - 21);
    Pow2Values();
  }

  /** The sum with the magic number rounds to whole units of its last place. */
  lemma MagicSum(v: nat, k: nat, one: nat, magic: nat, base: nat)
    requires k <= 200 && one == Pow2(k) && v < 8 * one
    requires 0x800000 <= base <= 0xC00000 && base % 2 == 0 && Value(magic) == base * one
    ensures RoundEven(v, one) <= 8
    ensures FloatOf(v + Value(magic)) == k * 0x800000 + (base + RoundEven(v, one)) < INF_BITS
    ensures Value(FloatOf(v + Value(magic))) == Value(magic) + RoundEven(v, one) * one
  {
    var sum, n := v + Value(magic), RoundEven(v, one);
    MulMono(0x800000, base, one);
    MulMono(base, 0xC00000, one);
    ExponentOf(sum, k);
    RoundEvenShift(v, one, base);
    RoundEvenBelow(v, one, 8);
    Distribute2(base, n, one);
    ValueOfFloat(sum);
  }

  lemma ScaledRange(v: nat, k: nat)
    requires v < 8 * Pow2(k)
    ensures v * Pow2(9) < 8 * Pow2(k + 9)
  {
    Pow2Add(9, k);
    MulLess(Pow2(9), v, 8 * Pow2(k));
  }

  /** Multiplying a small magnitude by 512 is exact. */
  lemma ScaleUpExact(ab: nat)
    requires ab < MIN_NORMAL_BITS
    ensures Value(ScaleUp(ab, 9)) == Value(ab) * Pow2(9)
  {
    var m, j := Significand(ab), Shift(ab);
    GridMultiple(m, j + 9, 9);
    FloatExact(m, j + 9, Value(ab) * Pow2(9));
  }

  /** ((ay * 512) + magic) - magic is the nearest multiple of 2^-9. */
  lemma TritonSubnormalExact(ab: nat, k: nat, magic: nat)
    requires StepExponent(k) && ab < MIN_NORMAL_BITS
    requires Value(magic) == 0x800000 * Pow2(k + 9)
    ensures TritonSubnormal(ab, magic) == RoundEven(Value(ab), Pow2(k))
  {
    var v, one, scaled := Value(ab), Pow2(k + 9), Value(ScaleUp(ab, 9));
    SubnormalRange(ab, k);
    ScaleUpExact(ab);
    ScaledRange(v, k);
    MagicSum(scaled, k + 9, one, magic, 0x800000);
    RoundedScaled(v, k);
    SubtractMagic(Add(ScaleUp(ab, 9), magic), RoundEven(scaled, one), k + 9, magic);
  }

  lemma SubtractMagic(sum: nat, n: nat, one: nat, magic: nat)
    requires one == 149 && n <= 8
    requires Value(sum) == Value(magic) + n * Pow2(one)
    ensures Truncate(AbsSub(sum, magic)) == n
  {
    hide Pow2;
    FloatExact(n, one, n * Pow2(one));
    TruncateInteger(AbsSub(sum, magic), n, one);
  }

  lemma RoundedScaled(v: nat, k: nat)
    ensures RoundEven(v * Pow2(9), Pow2(k + 9)) == RoundEven(v, Pow2(k))
  {
    Pow2Add(9, k);
    RoundEvenScale(v, Pow2(k), Pow2(9));
  }

  /** CUDA's single addition leaves 0x400000 plus the same multiple. */
  lemma CudaSubnormalExact(ab: nat, k: nat, magic: nat)
    requires StepExponent(k) && ab < MIN_NORMAL_BITS
    requires Value(magic) == 0xC00000 * Pow2(k)
    ensures RoundEven(Value(ab), Pow2(k)) <= 8
    ensures CudaSubnormal(ab, magic) == 0x400000 + RoundEven(Value(ab), Pow2(k))
  {
    hide Pow2;
    var n := RoundEven(Value(ab), Pow2(k));
    SubnormalRange(ab, k);
    MagicSum(Value(ab), k, Pow2(k), magic, 0xC00000);
    CudaWrap(Add(ab, magic), n);
  }

  lemma CudaWrap(sum: nat, n: nat)
    requires sum == 0x46C00000 + n && n <= 8
    ensures (sum + 0x1_0000_0000 - CUDA_SUB_BASE) % 0x1_0000_0000 == 0x400000 + n
  {
  }

  // ---------------------------------------------------------------- normal results

  /** The bits of a normal float split at the 20 dropped mantissa bits. */
  lemma NormalValue(ab: nat, q: nat, r: nat)
    requires 968 <= q && r < 0x100000 && ab == q * 0x100000 + r
    ensures Value(ab) == ((8 + q % 8) * 0x100000 + r) * Pow2(q / 8 - 1)
  {
    assert ab == q / 8 * 0x800000 + (q % 8 * 0x100000 + r);
    DivUnique(ab, 0x800000, q / 8, q % 8 * 0x100000 + r);
  }

  lemma NormalCode(q: nat, k: nat)
    requires StepExponent(k) && 968 <= q
    ensures CodeSteps(q - 960) * Pow2(k) == ((8 + q % 8) * 0x100000) * Pow2(q / 8 - 1)
    ensures CodeSteps(q - 959) * Pow2(k) == CodeSteps(q - 960) * Pow2(k) + 0x100000 * Pow2(q / 8 - 1)
  {
    var j, m := q / 8 - 1, 8 + q % 8;
    DivUnique(q - 960, 8, q / 8 - 120, q % 8);
    CodeFormula(q - 960);
    GapFormula(q - 960);
    StepGap(q - 960);
    StepsScaled(j, k);
    Reassociate(m, Pow2(j - 120), Pow2(k), 0x100000, Pow2(j));
    Distribute2(CodeSteps(q - 960), Pow2(j - 120), Pow2(k));
  }

  lemma Reassociate(m: nat, a: nat, b: nat, c: nat, d: nat)
    requires a * b == c * d
    ensures (m * a) * b == (m * c) * d
  {
    MulAssoc(m, a, b);
    MulAssoc(m, c, d);
  }

  lemma StepsScaled(j: nat, k: nat)
    requires StepExponent(k) && j >= 120
    ensures Pow2(j - 120) * Pow2(k) == 0x100000 * Pow2(j)
  {
    Pow2Values();
    Pow2Add(j - 120, k);
    Pow2Add(20, j);
  }

  lemma TopRange(ab: nat)
    requires 0x3C780000 <= ab
    ensures 968 <= RoundEven(ab, 0x100000)
    ensures ab <= OVERFLOW_BITS ==> RoundEven(ab, 0x100000) <= 1086
    ensures ab == OVERFLOW_BITS ==> RoundEven(ab, 0x100000) == 1086
    ensures ab > OVERFLOW_BITS ==> RoundEven(ab, 0x100000) >= 1087
  {
  }

  lemma NormalNearest(ab: nat, k: nat)
    requires StepExponent(k) && MIN_NORMAL_BITS <= ab <= OVERFLOW_BITS
    ensures 968 <= RoundEven(ab, 0x100000) <= 1086
    ensures NearestEven(RoundEven(ab, 0x100000) - 960, Value(ab), Pow2(k))
  {
    hide Pow2;
    var q, r := ab / 0x100000, ab % 0x100000;
    TopRange(ab);
    NormalSplit(ab, q, r, RoundEven(ab, 0x100000) - 960, k);
  }

  lemma NormalSplit(ab: nat, q: nat, r: nat, c: int, k: nat)
    requires StepExponent(k) && 968 <= q < 1087 && r < 0x100000 && ab == q * 0x100000 + r
    requires c == (if 2 * r < 0x100000 || (2 * r == 0x100000 && q % 2 == 0) then q else q + 1) - 960
    ensures NearestEven(c, Value(ab), Pow2(k))
  {
    NormalValue(ab, q, r);
    NormalCode(q, k);
    NormalOffsets(q, c, (8 + q % 8) * 0x100000, r, Pow2(q / 8 - 1), Pow2(k), Value(ab));
  }

  lemma NormalOffsets(q: nat, c: int, a: nat, r: nat, p: nat, step: nat, x: nat)
    requires 960 <= q < 1087 && r < 0x100000 && p > 0 && step > 0 && x == (a + r) * p
    requires CodeSteps(q - 960) * step == a * p && CodeSteps(q - 959) * step == a * p + 0x100000 * p
    requires c == (if 2 * r < 0x100000 || (2 * r == 0x100000 && q % 2 == 0) then q else q + 1) - 960
    ensures NearestEven(c, x, step)
  {
    Distribute(a, r, 0x100000, p);
    ScaleOrder(p, r, 0x100000 - r);
    NeighbourNearest(q - 960, c, x, step, p * r, p * (0x100000 - r));
  }

  lemma Distribute(a: nat, r: nat, g: nat, p: nat)
    requires r <= g
    ensures (a + r) * p == a * p + p * r && g * p == p * r + p * (g - r) && p * r >= 0 && p * (g - r) >= 0
  {
  }

  lemma Distribute2(a: nat, b: nat, p: nat)
    ensures (a + b) * p == a * p + b * p
  {
  }

  /** Just below 2^-6 the eleven-bit rounding already lands on the first normal code. */
  lemma CarryIntoNormal(ab: nat, k: nat)
    requires StepExponent(k) && 0x3C780000 <= ab < MIN_NORMAL_BITS
    ensures NearestEven(8, Value(ab), Pow2(k))
  {
    var r, p, step := ab - 967 * 0x100000, Pow2(k - 21), Pow2(k);
    DivUnique(ab, 0x800000, 120, 7 * 0x100000 + r);
    SplitSteps(r, p, step, k);
    NeighbourNearest(7, 8, Value(ab), step, (0x100000 + r) * p, (0x100000 - r) * p);
  }

  lemma SplitSteps(r: nat, p: nat, step: nat, k: nat)
    requires k >= 21 && p == Pow2(k - 21) && step == Pow2(k) && 0x80000 <= r < 0x100000
    ensures (0xF00000 + r) * p == 7 * step + (0x100000 + r) * p
    ensures 8 * step == (0xF00000 + r) * p + (0x100000 - r) * p
    ensures 0 <= (0x100000 - r) * p < (0x100000 + r) * p
  {
    Pow2Add(21, k - 21);
    Pow2Values();
    Distribute2(14 * 0x100000, 0x100000 + r, p);
    Distribute2(0xF00000 + r, 0x100000 - r, p);
    MulLess(p, 0x100000 - r, 0x100000 + r);
  }

  // ---------------------------------------------------------------- main results

  lemma MagicValue(magic: nat, e: nat, m: nat)
    requires magic == e * 0x800000 + m && e > 0 && m < 0x800000
    ensures Value(magic) == (0x800000 + m) * Pow2(e - 1)
  {
    DivUnique(magic, 0x800000, e, m);
  }

  lemma TopIsRounded(ab: nat)
    requires ab < INF_BITS
    ensures TritonTop(ab) == RoundEven(ab, 0x100000)
  {
    Pow2Values();
    BiasTrick(ab, 20);
  }

  lemma SelectCases(top: nat, mSub: nat)
    ensures 968 <= top <= 1087 ==> TritonSelect(top, mSub) == top - 960
    ensures top >= 1087 ==> TritonSelect(top, mSub) == 127
    ensures top < 968 && mSub <= 8 ==> TritonSelect(top, mSub) == mSub
  {
  }

  /** The eleven-bit rounding and the fixed-grid rounding agree with the reference on
      their own ranges, which overlap just below 2^-6. */
  lemma RangesNearest(ab: nat, c: nat, k: nat)
    requires StepExponent(k)
    requires (ab < MIN_NORMAL_BITS && c == RoundEven(Value(ab), Pow2(k)))
      || (0x3C780000 <= ab <= OVERFLOW_BITS && c == RoundEven(ab, 0x100000) - 960)
    ensures c <= 126 && NearestEven(c, Value(ab), Pow2(k))
  {
    hide Pow2;
    if ab < MIN_NORMAL_BITS && c == RoundEven(Value(ab), Pow2(k)) {
      SubnormalRange(ab, k);
      GridNearest(Value(ab), Pow2(k));
    } else if ab < MIN_NORMAL_BITS {
      CarryIntoNormal(ab, k);
    } else {
      NormalNearest(ab, k);
    }
  }

  lemma TritonSmall(ab: nat, k: nat)
    requires StepExponent(k) && ab < 0x3C780000
    ensures TritonMagnitude(ab) == RoundEven(Value(ab), Pow2(k))
  {
    TopIsRounded(ab);
    MagicValue(MAGIC_TRITON, k + 10, 0);
    TritonSubnormalExact(ab, k, MAGIC_TRITON);
    RangesNearest(ab, RoundEven(Value(ab), Pow2(k)), k);
    GridSmall(Value(ab), Pow2(k), ab, k);
    SelectCases(TritonTop(ab), TritonSubnormal(ab, MAGIC_TRITON));
  }

  lemma GridSmall(v: nat, step: nat, ab: nat, k: nat)
    requires StepExponent(k) && ab < MIN_NORMAL_BITS && v == Value(ab) && step == Pow2(k)
    ensures RoundEven(v, step) <= 8
  {
    SubnormalRange(ab, k);
    RoundEvenBelow(v, step, 8);
  }

  lemma TritonLarge(ab: nat)
    requires 0x3C780000 <= ab < INF_BITS
    ensures TritonMagnitude(ab) == if ab <= OVERFLOW_BITS then RoundEven(ab, 0x100000) - 960 else 127
  {
    TopIsRounded(ab);
    TopRange(ab);
    SelectCases(RoundEven(ab, 0x100000), TritonSubnormal(ab, MAGIC_TRITON));
  }

  /** The Triton cast is round-to-nearest-even on every magnitude up to the midpoint
      464; 464 itself ties down to 448. */
  lemma TritonRoundsToNearest(ab: nat, k: nat)
    requires StepExponent(k) && ab <= OVERFLOW_BITS
    ensures 0 <= TritonMagnitude(ab) <= 126 && NearestEven(TritonMagnitude(ab), Value(ab), Pow2(k))
  {
    if ab < 0x3C780000 {
      TritonSmall(ab, k);
    } else {
      TritonLarge(ab);
    }
    RangesNearest(ab, TritonMagnitude(ab), k);
  }

  lemma CudaSmall(ab: nat, k: nat)
    requires StepExponent(k) && ab < MIN_NORMAL_BITS
    ensures CudaResult(ab) == 0x400000 + RoundEven(Value(ab), Pow2(k))
  {
    MagicValue(MAGIC_CUDA, k + 1, 0x400000);
    CudaSubnormalExact(ab, k, MAGIC_CUDA);
  }

  lemma CudaNormal(ab: nat)
    requires MIN_NORMAL_BITS <= ab < OVERFLOW_BITS
    ensures CudaResult(ab) == RoundEven(ab, 0x100000) - 960
  {
    Pow2Values();
    BiasTrick(ab, 20);
    assert ab + 0xC4000000 + 0x7FFFF + ab / 0x100000 % 2
        == 0x1_0000_0000 + (ab + 0x7FFFF + ab / 0x100000 % 2 - 960 * 0x100000);
  }

  /** The CUDA result is round-to-nearest-even on every magnitude below 464, once the
      0x400000 its subnormal path leaves behind is dropped. */
  lemma CudaRoundsToNearest(ab: nat, k: nat) returns (c: nat)
    requires StepExponent(k) && ab < OVERFLOW_BITS
    ensures CudaResult(ab) == c || CudaResult(ab) == 0x400000 + c
    ensures c <= 126 && NearestEven(c, Value(ab), Pow2(k))
  {
    if ab < MIN_NORMAL_BITS {
      CudaSmall(ab, k);
      c := RoundEven(Value(ab), Pow2(k));
    } else {
      CudaNormal(ab);
      NormalNearest(ab, k);
      c := RoundEven(ab, 0x100000) - 960;
    }
    RangesNearest(ab, c, k);
  }

  lemma PackKeeps(bits: nat, res: nat, c: nat)
    requires bits < 0x1_0000_0000 && c <= 127 && (res == c || res == 0x400000 + c)
    ensures PackByte(res, SignByte(bits)) == bits / 0x8000_0000 * 128 + c
  {
    assert bits / 0x1000000 / 128 == bits / 0x8000_0000;
  }

  /** fp8_rne returns the sign and the nearest code for every |x| < 464; in its subnormal
      path only the final truncation to a byte makes the result right. */
  lemma CudaByte(bits: nat, k: nat)
    requires StepExponent(k) && bits < 0x1_0000_0000 && bits % 0x8000_0000 < OVERFLOW_BITS
    ensures CudaCast(bits) / 128 == bits / 0x8000_0000
    ensures NearestEven(CudaCast(bits) % 128, Value(bits % 0x8000_0000), Pow2(k))
  {
    var ab := bits % 0x8000_0000;
    var c := CudaRoundsToNearest(ab, k);
    PackKeeps(bits, CudaResult(ab), c);
    hide CudaCast, NearestEven, Value, Pow2;
    DivUnique(CudaCast(bits), 128, bits / 0x8000_0000, c);
  }

  /** ... and so does the Triton cast, 464 included. */
  lemma TritonByte(bits: nat, k: nat)
    requires StepExponent(k) && bits < 0x1_0000_0000 && bits % 0x8000_0000 <= OVERFLOW_BITS
    ensures TritonCast(bits) / 128 == bits / 0x8000_0000
    ensures NearestEven(TritonCast(bits) % 128, Value(bits % 0x8000_0000), Pow2(k))
  {
    hide TritonMagnitude, NearestEven, Value, Pow2;
    var ab := bits % 0x8000_0000;
    TritonRoundsToNearest(ab, k);
    DivUnique(TritonCast(bits), 128, bits / 0x8000_0000, TritonMagnitude(ab));
  }

  /** On finite floats the two casts differ at exactly |x| = 464. */
  lemma CastsAgreeExceptAt464(bits: nat, k: nat)
    requires StepExponent(k) && bits < 0x1_0000_0000 && bits % 0x8000_0000 < INF_BITS
    ensures TritonCast(bits) == CudaCast(bits) <==> bits % 0x8000_0000 != OVERFLOW_BITS
  {
    var ab := bits % 0x8000_0000;
    if ab < OVERFLOW_BITS {
      CastsAgreeBelow(bits, ab, k);
    } else {
      TritonLarge(ab);
      TopRange(ab);
      PackKeeps(bits, CudaResult(ab), 127);
      assert TritonMagnitude(ab) == if ab == OVERFLOW_BITS then 126 else 127;
    }
  }

  lemma CastsAgreeBelow(bits: nat, ab: nat, k: nat)
    requires StepExponent(k) && bits < 0x1_0000_0000 && ab == bits % 0x8000_0000 < OVERFLOW_BITS
    ensures TritonCast(bits) == CudaCast(bits)
  {
    TritonRoundsToNearest(ab, k);
    var c := CudaRoundsToNearest(ab, k);
    NearestUnique(TritonMagnitude(ab), c, Value(ab), Pow2(k));
    PackKeeps(bits, CudaResult(ab), c);
  }

  lemma ValueMonotone(a: nat, b: nat)
    requires a <= b
    ensures Value(a) <= Value(b)
  {
    var m, n := Significand(a), Significand(b);
    if Shift(a) < Shift(b) {
      GridMultiple(n, Shift(b), Shift(a) + 1);
      MulMono(1, Pow2(Shift(b) - Shift(a) - 1), n);
      MulMono(m, 2 * (n * Pow2(Shift(b) - Shift(a) - 1)), Pow2(Shift(a)));
      assert Pow2(Shift(a) + 1) == 2 * Pow2(Shift(a));
    } else {
      assert Shift(a) == Shift(b) && m <= n;
      MulMono(m, n, Pow2(Shift(a)));
    }
  }

  /** The Triton cast is monotone in the magnitude. */
  lemma TritonMonotone(a: nat, b: nat, k: nat)
    requires StepExponent(k) && a <= b < INF_BITS
    ensures TritonMagnitude(a) <= TritonMagnitude(b) <= 127
  {
    if b <= OVERFLOW_BITS {
      TritonRoundsToNearest(a, k);
      TritonRoundsToNearest(b, k);
      ValueMonotone(a, b);
      NearestMonotone(TritonMagnitude(a), Value(a), TritonMagnitude(b), Value(b), Pow2(k));
    } else {
      TritonLarge(b);
      if a <= OVERFLOW_BITS { TritonRoundsToNearest(a, k); } else { TritonLarge(a); }
    }
  }
}
