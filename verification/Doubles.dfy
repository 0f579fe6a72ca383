/**
 Numbers with 53 significant bits, and rounding to the nearest of them: the arithmetic of
 C++ double away from the ends of its range.
 */
module Doubles {
  import opened Powers
  import opened Nearest
  import opened Rounding

  const MANTISSA: nat := 0x20_0000_0000_0000  // 2^53

  function Up(m: nat, k: nat): real
  {
    m as real * Pow2(k) as real
  }

  function Down(m: nat, k: nat): real
  {
    m as real / Pow2(k) as real
  }

  ghost predicate Double(v: real)
  {
    exists m: nat, k: nat :: m < MANTISSA && (v == Up(m, k) || v == Down(m, k))
  }

  ghost predicate NearestDouble(y: real, t: real)
  {
    Double(y) && forall z :: Double(z) ==> Abs(y - t) <= Abs(z - t)
  }

  /** A rounding to nearest, whatever it does with ties. */
  ghost predicate RoundsToDouble(fl: real -> real)
  {
    forall t :: t > 0.0 ==> NearestDouble(fl(t), t)
  }

  lemma DoubleExact(fl: real -> real, v: real)
    requires RoundsToDouble(fl) && v > 0.0 && Double(v)
    ensures fl(v) == v
  {
    assert NearestDouble(fl(v), v);
  }

  lemma IntegerDouble(n: nat)
    requires n < MANTISSA
    ensures Double(n as real)
  {
    assert Up(n, 0) == n as real;
  }

  /** There is a double within 2^-52 of t, relative to t. */
  lemma CloseDouble(t: real) returns (z: real)
    requires t >= 1.0 / 1099511627776.0
    ensures Double(z) && Abs(z - t) <= t / 4503599627370496.0
  {
    Pow92();
    hide Pow2;
    var x := t * Pow2(92) as real;
    ScaledOrder(1.0 / 1099511627776.0, t, Pow2(92) as real);
    var k := Binade(4503599627370496.0, x);
    var m := Multiple(x, Pow2(k) as real);
    MantissaBound(x, m, Pow2(k) as real);
    z := Placed(m, k, 92);
    var p := Pow2(92) as real;
    assert z * p == m as real * Pow2(k) as real;
    Unscaled(z, t, p, x);
  }

  lemma Pow92()
    ensures Pow2(92) as real >= 4503599627370496.0 * 1099511627776.0
  {
    hide Pow2;
    Pow2Values();
    Pow2Add(20, 20);
    assert Pow2(40) == 1099511627776;
    Pow2Add(40, 40);
    Pow2Add(9, 3);
    Pow2Add(80, 12);
    assert Pow2(12) == 4096;
  }

  lemma MantissaBound(x: real, m: nat, g: real)
    requires g > 0.0 && 4503599627370496.0 * g <= x < 2.0 * 4503599627370496.0 * g
    requires m as real * g <= x < m as real * g + g
    ensures m < MANTISSA && Abs(m as real * g - x) <= x / 4503599627370496.0
  {
    ScaledOrder(m as real, 9007199254740992.0, g);
  }

  /** m 2^k / 2^top */
  lemma Placed(m: nat, k: nat, top: nat) returns (z: real)
    requires m < MANTISSA
    ensures Double(z) && z * Pow2(top) as real == m as real * Pow2(k) as real
  {
    hide Pow2;
    if k >= top {
      z := Up(m, k - top);
      Pow2Add(k - top, top);
      Regroup(m as real, Pow2(k - top), Pow2(top), Pow2(k));
    } else {
      z := Down(m, top - k);
      DownTimes(m, top - k);
      Pow2Add(top - k, k);
      Regroup(z, Pow2(top - k), Pow2(k), Pow2(top));
    }
  }

  lemma DownTimes(m: nat, k: nat)
    ensures Down(m, k) * Pow2(k) as real == m as real
  {
    hide Pow2;
    Multiplied(m as real, Pow2(k) as real);
  }

  lemma Multiplied(a: real, b: real)
    requires b > 0.0
    ensures a / b * b == a
  {
  }

  lemma Regroup(v: real, a: nat, b: nat, c: nat)
    requires c == a * b
    ensures v * a as real * b as real == v * c as real
  {
    assert c as real == a as real * b as real;
  }

  lemma Unscaled(z: real, t: real, p: real, x: real)
    requires p > 0.0 && x == t * p && Abs(z * p - x) <= x / 4503599627370496.0
    ensures Abs(z - t) <= t / 4503599627370496.0
  {
    var d, bound := z - t, t / 4503599627370496.0;
    assert d * p == z * p - x;
    assert bound * p == x / 4503599627370496.0;
    ScaledOrder(d, bound, p);
    ScaledOrder(-d, bound, p);
  }

  // ---------------------------------------------------------------- doubles near a quarter

  /** Doubles in [1/4, 1/2) are multiples of 2^-54. */
  lemma QuarterGrid(y: real) returns (n: nat)
    requires Double(y) && 0.25 <= y < 0.5
    ensures y == n as real / 18014398509481984.0
  {
    Pow54();
    hide Pow2;
    var m: nat, k: nat :| m < MANTISSA && (y == Up(m, k) || y == Down(m, k));
    NotInteger(m * Pow2(k), y);
    assert Up(m, k) == (m * Pow2(k)) as real;
    hide Up;
    DownTimes(m, k);
    hide Down;
    Deep(y, m, k);
    Pow2Add(54 - k, k);
    n := m * Pow2(54 - k);
    Regroup(y, Pow2(k), Pow2(54 - k), Pow2(54));
  }

  lemma NotInteger(n: nat, y: real)
    requires 0.25 <= y < 0.5
    ensures y != n as real
  {
  }

  lemma Deep(y: real, m: nat, k: nat)
    requires 0.25 <= y && m < MANTISSA && y * Pow2(k) as real == m as real
    ensures k <= 54
  {
    Pow54();
    hide Pow2;
    if k > 54 {
      Pow2Mono(55, k);
      ScaledOrder(0.25, y, Pow2(k) as real);
    }
  }

  lemma Pow54()
    ensures Pow2(54) == 18014398509481984 && Pow2(55) == 36028797018963968 && Pow2(45) == 35184372088832
  {
    assert Pow2(55) == 2 * Pow2(54) && Pow2(5) == 32;
    hide Pow2;
    Pow2Values();
    Pow2Add(20, 20);
    assert Pow2(40) == 1099511627776;
    Pow2Add(40, 14);
    Pow2Add(40, 5);
  }
}
