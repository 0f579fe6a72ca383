/**
 IEEE binary32 magnitudes as exact integers.  Every finite magnitude is a multiple
 of 2^-149, so Value counts that unit; FloatOf is the rounding every float
 operation ends with (nearest, ties to even), and the operations used by the fp8
 casts are exact sums and differences followed by FloatOf.

 Infinities and not-a-number have no value: the bits stay below INF_BITS.
 */
module Fp32 {
  import opened Powers

  const INF_BITS: nat := 0x7F800000

  /** The 24-bit significand and the exponent of the low 31 bits of a float. */
  function Significand(ab: nat): nat
  {
    if ab < 0x800000 then ab else 0x800000 + ab % 0x800000
  }

  function Shift(ab: nat): nat
  {
    if ab < 0x800000 then 0 else ab / 0x800000 - 1
  }

  /** The magnitude they denote, in units of 2^-149. */
  function Value(ab: nat): nat
  {
    Significand(ab) * Pow2(Shift(ab))
  }

  /** The exponent field of the binade holding v (1 for subnormals as well). */
  function Exponent(v: nat): (e: nat)
    ensures e >= 1
  {
    if v < 0x1000000 then 1 else 1 + Exponent(v / 2)
  }

  /** The binary32 bits nearest to v, ties to even, saturating at infinity. */
  function FloatOf(v: nat): nat
  {
    var e := Exponent(v);
    var bits := (e - 1) * 0x800000 + RoundEven(v, Pow2(e - 1));
    if bits < INF_BITS then bits else INF_BITS
  }

  lemma {:induction false} ExponentBounds(v: nat)
    ensures v < 0x1000000 * Pow2(Exponent(v) - 1)
    ensures Exponent(v) > 1 ==> 0x800000 * Pow2(Exponent(v) - 1) <= v
  {
    if v >= 0x1000000 {
      ExponentBounds(v / 2);
      assert Pow2(Exponent(v) - 1) == 2 * Pow2(Exponent(v / 2) - 1);
    }
  }

  lemma {:induction false} ExponentOf(v: nat, k: nat)
    requires 0x800000 * Pow2(k) <= v < 0x1000000 * Pow2(k)
    ensures Exponent(v) == k + 1
  {
    if k > 0 { ExponentOf(v / 2, k - 1); }
  }

  function Add(a: nat, b: nat): nat
  {
    FloatOf(Value(a) + Value(b))
  }

  /** |a - b| on magnitudes. */
  function AbsSub(a: nat, b: nat): nat
  {
    var d: nat := if Value(a) >= Value(b) then Value(a) - Value(b) else Value(b) - Value(a);
    FloatOf(d)
  }

  /** Multiplication by 2^k. */
  function ScaleUp(a: nat, k: nat): nat
  {
    FloatOf(Value(a) * Pow2(k))
  }

  /** The conversion to an integer, truncating: one is 2^149 units. */
  function Truncate(ab: nat): nat
  {
    var m, j := Significand(ab), Shift(ab);
    if j >= 149 then m * Pow2(j - 149) else Quotient(m, Pow2(149 - j))
  }

  lemma RoundEvenBelow(v: nat, g: nat, a: nat)
    requires g > 0 && v < a * g
    ensures RoundEven(v, g) <= a
  {
    if v / g >= a {
      ScaleOrder(g, v / g, a);
      assert false;
    }
  }

  lemma RoundEvenAbove(v: nat, g: nat, a: nat)
    requires g > 0 && a * g <= v
    ensures a <= RoundEven(v, g)
  {
    if v / g < a {
      ScaleOrder(g, v / g + 1, a);
      assert false;
    }
  }

  /** What the rounding produces, as a value: v rounded to the grid of its binade. */
  lemma ValueOfFloat(v: nat)
    requires FloatOf(v) < INF_BITS
    ensures var g := Pow2(Exponent(v) - 1); Value(FloatOf(v)) == RoundEven(v, g) * g
  {
    ExponentBounds(v);
    var e := Exponent(v);
    var g := Pow2(e - 1);
    var q := RoundEven(v, g);
    RoundEvenBelow(v, g, 0x1000000);
    if e > 1 { RoundEvenAbove(v, g, 0x800000); }
    var bits := FloatOf(v);
    assert bits == (e - 1) * 0x800000 + q;
    if q < 0x800000 {
      assert bits == q;
    } else if q < 0x1000000 {
      DivUnique(bits, 0x800000, e, q - 0x800000);
    } else {
      DivUnique(bits, 0x800000, e + 1, 0);
      assert Pow2(e) == 2 * g;
    }
  }

  lemma {:induction false} ExponentOfMultiple(m: nat, j: nat)
    requires m < 0x1000000
    ensures Exponent(m * Pow2(j)) <= j + 1
  {
    if j > 0 && m * Pow2(j) >= 0x1000000 {
      assert m * Pow2(j) / 2 == m * Pow2(j - 1) by {
        assert m * Pow2(j) == 2 * (m * Pow2(j - 1));
      }
      ExponentOfMultiple(m, j - 1);
    }
  }

  lemma GridMultiple(m: nat, j: nat, i: nat)
    requires i <= j
    ensures m * Pow2(j) == (m * Pow2(j - i)) * Pow2(i)
  {
    Pow2Add(j - i, i);
    MulAssoc(m, Pow2(j - i), Pow2(i));
  }

  /** A number with at most 24 significant bits is a float already. */
  lemma FloatExact(m: nat, j: nat, v: nat)
    requires m < 0x1000000 && j <= 252 && v == m * Pow2(j)
    ensures FloatOf(v) < INF_BITS && Value(FloatOf(v)) == v
  {
    ExponentOfMultiple(m, j);
    var i := Exponent(v) - 1;
    var k, g := m * Pow2(j - i), Pow2(i);
    GridMultiple(m, j, i);
    ExponentBounds(v);
    RoundEvenExact(k, g);
    RoundEvenBelow(v, g, 0x1000000);
    ValueOfFloat(v);
  }

  /** An integer number of ones is converted without loss. */
  lemma TruncateInteger(ab: nat, n: nat, one: nat)
    requires one == 149 && Value(ab) == n * Pow2(one)
    ensures Truncate(ab) == n
  {
    var m, j := Significand(ab), Shift(ab);
    if j >= one {
      SameGrid(n, one, m, j);
    } else {
      SameGrid(m, j, n, one);
      DivUnique(m, Pow2(one - j), n, 0);
    }
  }

  lemma SameGrid(m: nat, j: nat, n: nat, one: nat)
    requires j <= one && m * Pow2(j) == n * Pow2(one)
    ensures m == n * Pow2(one - j)
  {
    GridMultiple(n, one, j);
    ScaleOrder(Pow2(j), m, n * Pow2(one - j));
  }
}
