/**
 How accurate a float operation is: the two constants quantisation relies on, and the
 proof that rounding to the nearest binary32 number keeps them.  (The division of the GPU
 is not always correctly rounded; it keeps them too.)
 */
module Rounding {
  import opened Powers
  import opened Nearest
  import opened Fp32

  const EPS: real := 1.0 / 4194304.0  // 2^-22
  const ETA: real := 0.0000000000000000000000000000000000001  // 10^-37
  const LARGEST: real := 100000000000000000000000000000000000000.0  // 10^38

  /** What fl makes of a result t is off by at most EPS t, or ETA where floats end. */
  ghost predicate Accurate(fl: real -> real)
  {
    forall t :: 0.0 <= t <= LARGEST ==> fl(t) >= 0.0 && Abs(fl(t) - t) <= EPS * t + ETA
  }

  /** The number with these bits (units of 2^-149). */
  function FloatValue(ab: nat): real
  {
    Value(ab) as real / Pow2(149) as real
  }

  ghost predicate IsNearest(ab: nat, t: real)
  {
    ab < INF_BITS && forall b: nat :: b < INF_BITS ==> Abs(FloatValue(ab) - t) <= Abs(FloatValue(b) - t)
  }

  /** A rounding to the nearest float, whatever it does with ties, is accurate. */
  lemma NearestIsAccurate(fl: real -> real)
    requires forall t :: 0.0 <= t <= LARGEST ==> exists ab: nat :: fl(t) == FloatValue(ab) && IsNearest(ab, t)
    ensures Accurate(fl)
  {
    hide FloatValue;
    forall t | 0.0 <= t <= LARGEST
      ensures fl(t) >= 0.0 && Abs(fl(t) - t) <= EPS * t + ETA
    {
      var ab: nat :| fl(t) == FloatValue(ab) && IsNearest(ab, t);
      var b := CloseFloat(t);
      NotNegative(ab);
    }
  }

  lemma NotNegative(ab: nat)
    ensures FloatValue(ab) >= 0.0
  {
    hide Pow2;
  }

  lemma PowerBounds()
    ensures Pow2(149) as real * ETA >= 1.0 && Pow2(127) as real > LARGEST
  {
    assert Pow2(7) == 128;
    hide Pow2;
    Pow2Values();
    Pow2Add(20, 20);
    assert Pow2(40) == 1099511627776;
    Pow2Add(40, 40);
    assert Pow2(80) == 1208925819614629174706176;
    Pow2Add(80, 40);
    assert Pow2(120) == 1329227995784915872903807060280344576;
    Pow2Add(120, 7);
    assert Pow2(127) == 170141183460469231731687303715884105728;
    Pow2Add(120, 20);
    assert Pow2(140) == 1393796574908163946345982392040522594123776;
    Pow2Add(140, 9);
    assert Pow2(149) == 713623846352979940529142984724747568191373312;
  }

  /** There is a float close to t. */
  lemma CloseFloat(t: real) returns (b: nat)
    requires 0.0 <= t <= LARGEST
    ensures b < INF_BITS && Abs(FloatValue(b) - t) <= EPS * t + ETA
  {
    PowerBounds();
    Pow2Add(127, 149);
    hide Pow2, Value;
    b := CloseInUnits(t, Pow2(149), Pow2(127), t * Pow2(149) as real);
  }

  lemma CloseInUnits(t: real, one: nat, top: nat, x: real) returns (b: nat)
    requires 0.0 <= t <= LARGEST && one > 0 && one as real * ETA >= 1.0 && x == t * one as real
    requires one == Pow2(149) && top == Pow2(127) && top as real > LARGEST && Pow2(276) == top * one
    ensures b < INF_BITS && Abs(FloatValue(b) - t) <= EPS * t + ETA
  {
    hide Pow2, Value;
    Products(t, one as real, x, top as real);
    b := CloseUnits(x);
    Scaled(Value(b) as real, x, one as real, t);
  }

  lemma Products(t: real, one: real, x: real, top: real)
    requires 0.0 <= t < top && one > 0.0 && x == t * one
    ensures 0.0 <= x < top * one
  {
    assert (top - t) * one > 0.0;
  }

  /** From units back to numbers. */
  lemma Scaled(v: real, x: real, one: real, t: real)
    requires one > 0.0 && one * ETA >= 1.0 && t >= 0.0 && x == t * one
    requires Abs(v - x) <= 1.0 || Abs(v - x) <= x / 8388608.0
    ensures Abs(v / one - t) <= EPS * t + ETA
  {
    var d := v / one - t;
    assert d * one == v - x;
    var bound := EPS * t + ETA;
    assert bound * one == EPS * x + ETA * one;
    ScaledOrder(d, bound, one);
    ScaledOrder(-d, bound, one);
  }

  lemma ScaledOrder(a: real, b: real, u: real)
    requires u > 0.0
    ensures (a * u < b * u) == (a < b) && (a * u == b * u) == (a == b)
  {
    if a < b { assert (b - a) * u > 0.0; }
    if a > b { assert (a - b) * u > 0.0; }
  }

  /** Among the floats counted in units: below 2^23 all integers, above it 24 bits. */
  lemma CloseUnits(x: real) returns (b: nat)
    requires 0.0 <= x < Pow2(276) as real
    ensures b < INF_BITS && (Abs(Value(b) as real - x) <= 1.0 || Abs(Value(b) as real - x) <= x / 8388608.0)
  {
    hide Pow2;
    if x < 8388608.0 {
      b := x.Floor;
      SmallValue(b);
    } else {
      var k := Binade(8388608.0, x);
      BinadeBound(x, k);
      var m := Multiple(x, Pow2(k) as real);
      MultipleBound(x, m, Pow2(k));
      FloatExact(m, k, m * Pow2(k));
      b := FloatOf(m * Pow2(k));
    }
  }

  lemma SmallValue(b: nat)
    requires b < 0x800000
    ensures Value(b) == b
  {
    assert Pow2(0) == 1;
  }

  /** The power of two that scales x down to [base, 2 base). */
  lemma {:induction false} Binade(base: real, x: real) returns (k: nat)
    requires x >= base >= 1.0
    ensures base * Pow2(k) as real <= x < 2.0 * base * Pow2(k) as real
    decreases x.Floor
  {
    if x < 2.0 * base {
      k := 0;
    } else {
      var j := Binade(base, x / 2.0);
      k := j + 1;
      assert Pow2(k) == 2 * Pow2(j);
      Doubled(base, Pow2(j) as real, x);
    }
  }

  lemma Doubled(base: real, p: real, x: real)
    requires base * p <= x / 2.0 < 2.0 * base * p
    ensures base * (2.0 * p) <= x < 2.0 * base * (2.0 * p)
  {
    assert base * (2.0 * p) == 2.0 * (base * p);
    assert 2.0 * base * (2.0 * p) == 2.0 * (2.0 * base * p);
  }

  lemma BinadeBound(x: real, k: nat)
    requires 8388608.0 * Pow2(k) as real <= x < Pow2(276) as real
    ensures k <= 252
  {
    hide Pow2;
    Pow2Values();
    Pow2Add(20, 3);
    Pow2Add(23, 253);
    assert 8388608 * Pow2(253) == Pow2(276);
    if k >= 253 { Pow2Mono(253, k); }
  }

  lemma Multiple(x: real, g: real) returns (m: nat)
    requires x >= 0.0 && g > 0.0
    ensures m as real * g <= x < m as real * g + g
  {
    var q := x / g;
    assert x == q * g;
    ScaledOrder(q, 0.0, g);
    m := q.Floor;
    Truncated(q, m as real, g, x);
  }

  lemma Truncated(q: real, m: real, g: real, x: real)
    requires m <= q < m + 1.0 && g > 0.0 && x == q * g
    ensures m * g <= x < m * g + g
  {
    var rest := q - m;
    assert x == m * g + rest * g;
    assert rest * g >= 0.0;
    assert 0.0 <= rest < 1.0;
    assert (1.0 - rest) * g > 0.0;
    assert (1.0 - rest) * g == g - rest * g;
  }

  lemma MultipleBound(x: real, m: nat, g: nat)
    requires g > 0 && 8388608.0 * g as real <= x < 16777216.0 * g as real
    requires m as real * g as real <= x < m as real * g as real + g as real
    ensures m < 0x1000000 && Abs((m * g) as real - x) <= x / 8388608.0
  {
    assert (m * g) as real == m as real * g as real;
    if m >= 0x1000000 { MulMono(0x1000000, m, g); }
  }
}
