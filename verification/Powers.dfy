/**
 Powers of two and round-to-nearest-even on an integer grid.  Everything the
 repository does with bit patterns (shifts, masks, biases) is expressed here with
 exact integers, so that a shift by s is a division by Pow2(s).

 BiasTrick is the rounding step both fp8 casts share.  The other laws of multiplication
 and division are small, and stated on their own so that products stay out of the
 proofs that use them.
 */
module Powers {

  function Pow2(n: nat): (p: nat)
    ensures p > 0
  {
    if n == 0 then 1 else 2 * Pow2(n - 1)
  }

  lemma {:induction false} Pow2Add(a: nat, b: nat)
    ensures Pow2(a + b) == Pow2(a) * Pow2(b)
  {
    if a > 0 {
      Pow2Add(a - 1, b);
      Twofold(Pow2(a - 1), Pow2(b));
    }
  }

  lemma Twofold(p: nat, q: nat)
    ensures 2 * (p * q) == (2 * p) * q
  {
  }

  lemma {:induction false} Pow2Mono(a: nat, b: nat)
    requires a <= b
    ensures Pow2(a) <= Pow2(b)
  {
    if a < b { Pow2Mono(a, b - 1); }
  }

  function Quotient(n: nat, d: nat): nat
    requires d > 0
  {
    n / d
  }

  /** n / g rounded to the nearest integer, ties to the even quotient. */
  function RoundEven(n: nat, g: nat): nat
    requires g > 0
  {
    var q, r := n / g, n % g;
    if 2 * r < g || (2 * r == g && q % 2 == 0) then q else q + 1
  }

  lemma MulLess(s: int, a: int, b: int)
    requires s > 0 && a < b
    ensures s * a < s * b
  {
    assert s * (b - a) > 0;
  }

  lemma MulMono(a: int, b: int, c: int)
    requires a <= b && c >= 0
    ensures a * c <= b * c
  {
    assert (b - a) * c >= 0;
  }

  lemma PositiveFactor(a: int, b: nat)
    requires a * b > 0
    ensures a > 0
  {
    if a <= 0 { MulMono(a, 0, b); }
  }

  lemma Pow2Values()
    ensures Pow2(3) == 8 && Pow2(9) == 512 && Pow2(14) == 16384 && Pow2(19) == 0x80000 && Pow2(20) == 0x100000 &&
              Pow2(21) == 0x200000
  {
  }

  lemma Euclid(n: nat, g: nat) returns (q: nat, r: nat)
    requires g > 0
    ensures q == n / g && r == n % g && n == q * g + r && r < g
  {
    q, r := n / g, n % g;
  }

  lemma MulAssoc(a: int, b: int, c: int)
    ensures a * (b * c) == (a * b) * c
  {
  }

  lemma DivUnique(n: nat, g: nat, q: nat, r: nat)
    requires g > 0 && r < g && n == q * g + r
    ensures n / g == q && n % g == r
  {
    var d := n / g - q;
    assert g * d == r - n % g by {
      assert n == g * (n / g) + n % g;
      assert g * (n / g) == g * q + g * d;
    }
    assert d == 0 by {
      if d >= 1 { MulLess(g, 0, d); MulLess(g, d - 1, d); assert false; }
      if d <= -1 { MulLess(g, d, 0); MulLess(g, d, d + 1); assert false; }
    }
  }

  /** Adding a multiple of the grid whose quotient is even shifts the result only. */
  lemma RoundEvenShift(n: nat, g: nat, k: nat)
    requires g > 0 && k % 2 == 0
    ensures RoundEven(n + k * g, g) == RoundEven(n, g) + k
  {
    assert n + k * g == (n / g + k) * g + n % g;
    DivUnique(n + k * g, g, n / g + k, n % g);
  }

  lemma ScaleQuotient(n: nat, g: nat, s: nat)
    requires g > 0 && s > 0
    ensures s * g > 0 && s * n / (s * g) == n / g && s * n % (s * g) == s * (n % g)
  {
    var q, r := n / g, n % g;
    MulLess(s, 0, g);
    MulLess(s, r, g);
    assert s * n == q * (s * g) + s * r by {
      assert n == q * g + r;
      assert s * (q * g) == q * (s * g);
    }
    DivUnique(s * n, s * g, q, s * r);
  }

  lemma ScaleOrder(s: int, a: int, b: int)
    requires s > 0
    ensures (s * a < s * b) == (a < b) && (s * a == s * b) == (a == b)
  {
    if a < b { MulLess(s, a, b); } else if b < a { MulLess(s, b, a); }
  }

  /** Scaling both the number and the grid changes nothing. */
  lemma RoundEvenScale(n: nat, g: nat, s: nat)
    requires g > 0 && s > 0
    ensures s * g > 0 && RoundEven(s * n, s * g) == RoundEven(n, g)
  {
    ScaleQuotient(n, g, s);
    var r := n % g;
    assert 2 * (s * r) == s * (2 * r);
    ScaleOrder(s, 2 * r, g);
  }

  lemma RoundEvenExact(q: nat, g: nat)
    requires g > 0
    ensures RoundEven(q * g, g) == q
  {
    DivUnique(q * g, g, q, 0);
  }

  /** The rounding-bias trick, for every shift width: adding half a grid step minus
      one plus the retained low bit, then truncating, is round-to-nearest-even. */
  lemma BiasTrick(n: nat, s: nat)
    requires s >= 1
    ensures (n + (Pow2(s - 1) - 1) + n / Pow2(s) % 2) / Pow2(s) == RoundEven(n, Pow2(s))
  {
    var g, h := Pow2(s), Pow2(s - 1);
    var q, r := Euclid(n, g);
    assert g == 2 * h;
    BiasOnGrid(n, h, q, r);
  }

  lemma BiasOnGrid(n: nat, h: nat, q: nat, r: nat)
    requires h > 0 && n == q * (2 * h) + r && r < 2 * h
    ensures (n + (h - 1) + q % 2) / (2 * h) == if r < h || (r == h && q % 2 == 0) then q else q + 1
  {
    var g, rest := 2 * h, r + (h - 1) + q % 2;
    if rest < g {
      DivUnique(n + (h - 1) + q % 2, g, q, rest);
    } else {
      DivUnique(n + (h - 1) + q % 2, g, q + 1, rest - g);
    }
  }
}
