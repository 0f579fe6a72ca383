/**
 The size of a resized image (image.cpp): two divisions in double, the second one
 truncated.  `fl` is the rounding of a division.
 */
module ResizeSizes {
  import opened Powers
  import opened Nearest
  import opened Rounding
  import opened Doubles

  const MAX_INT: nat := 0x7FFF_FFFF

  const SMALL: real := 1.0 / 1099511627776.0  // 2^-40
  const BIG: real := 1099511627776.0  // 2^40
  const ULP: real := 1.0 / 4503599627370496.0  // 2^-52

  /** fl is off by at most ULP of the result. */
  ghost predicate Relative(fl: real -> real)
  {
    forall t :: SMALL <= t <= BIG ==> Abs(fl(t) - t) <= ULP * t
  }

  // ---------------------------------------------------------------- the sizes

  /** max(W / tw, H / th) */
  function Ratio(fl: real -> real, h: nat, w: nat, th: nat, tw: nat): real
    requires th > 0 && tw > 0
  {
    Max(fl(w as real / tw as real), fl(h as real / th as real))
  }

  /** int(x / ratio), for a quotient that is not negative. */
  function Scaled(fl: real -> real, x: nat, ratio: real): nat
    requires ratio > 0.0
  {
    var q := fl(x as real / ratio);
    if q < 0.0 then 0 else q.Floor
  }

  predicate Size(x: nat)
  {
    0 < x <= MAX_INT
  }

  lemma RealQuotient(a: real, b: real) returns (q: real)
    requires b > 0.0
    ensures q == a / b && q * b == a
  {
    q := a / b;
  }

  /** a / b is at most c exactly when a is at most c b. */
  lemma QuotientOrder(a: real, b: real, c: real)
    requires b > 0.0
    ensures a / b <= c <==> a <= c * b
    ensures c <= a / b <==> c * b <= a
  {
    var q := RealQuotient(a, b);
    ScaledOrder(q, c, b);
  }

  /** Quotients of sizes are in the range where fl is accurate. */
  lemma SizeQuotient(fl: real -> real, x: nat, t: nat) returns (r: real)
    requires Relative(fl) && Size(x) && Size(t)
    ensures r == fl(x as real / t as real) && r > 0.0
    ensures Abs(r * t as real - x as real) <= ULP * x as real
    ensures 1.0 / 4294967296.0 <= r <= 4294967296.0
  {
    hide Relative;
    var q := RealQuotient(x as real, t as real);
    SizesRatio(x as real, t as real, q);
    r := fl(q);
    InRange(fl, q);
    Unscale(q, r, x as real, t as real);
  }

  lemma SizesRatio(x: real, t: real, q: real)
    requires 1.0 <= x <= 2147483647.0 && 1.0 <= t <= 2147483647.0 && q == x / t
    ensures 1.0 / 2147483648.0 <= q <= 2147483648.0
  {
    QuotientOrder(x, t, 2147483648.0);
    QuotientOrder(x, t, 1.0 / 2147483648.0);
  }

  lemma InRange(fl: real -> real, q: real)
    requires Relative(fl) && 1.0 / 2147483648.0 <= q <= 2147483648.0
    ensures Abs(fl(q) - q) <= ULP * q && 1.0 / 4294967296.0 <= fl(q) <= 4294967296.0
  {
  }

  /** An error relative to a quotient is one relative to the dividend. */
  lemma Unscale(q: real, r: real, x: real, t: real)
    requires t > 0.0 && q * t == x && Abs(r - q) <= ULP * q
    ensures Abs(r * t - x) <= ULP * x
  {
    var d := r - q;
    assert d * t == r * t - x;
    assert ULP * q * t == ULP * x;
    ScaledOrder(d, ULP * q, t);
    ScaledOrder(-d, ULP * q, t);
  }

  /** The second quotient, and its error. */
  lemma SecondQuotient(fl: real -> real, x: nat, ratio: real) returns (y: real)
    requires Relative(fl) && Size(x) && 1.0 / 4294967296.0 <= ratio <= 4294967296.0
    requires x as real <= 4294967296.0 * ratio
    ensures y == fl(x as real / ratio) && y > 0.0 && Abs(y * ratio - x as real) <= ULP * x as real
  {
    var q := RealQuotient(x as real, ratio);
    QuotientOrder(x as real, ratio, 4294967296.0);
    QuotientOrder(x as real, ratio, SMALL);
    y := fl(q);
    Unscale(q, y, x as real, ratio);
  }

  /** The resized image never exceeds the target, however the divisions are rounded, and
      reaches it exactly when the rounded quotient does. */
  lemma ScaledFits(fl: real -> real, x: nat, t: nat, ratio: real)
    requires Relative(fl) && Size(x) && Size(t)
    requires fl(x as real / t as real) <= ratio <= 4294967296.0
    ensures ratio > 0.0 && Scaled(fl, x, ratio) <= t
    ensures Scaled(fl, x, ratio) == t <==> fl(x as real / ratio) >= t as real
  {
    var r := SizeQuotient(fl, x, t);
    RatioCovers(r, ratio, x as real, t as real);
    var y := SecondQuotient(fl, x, ratio);
    Below(y, ratio, x as real, t as real);
  }

  lemma RatioCovers(r: real, ratio: real, x: real, t: real)
    requires 0.0 < r <= ratio && 0.0 < t <= 2147483647.0 && Abs(r * t - x) <= ULP * x && x > 0.0
    ensures x * (1.0 - ULP) <= ratio * t && x <= 4294967296.0 * ratio
  {
    ScaledOrder(r, ratio, t);
    ScaledOrder(t, 2147483647.0, ratio);
  }

  /** y ratio is about x, which is about ratio t at most, so y is below t + 1. */
  lemma Below(y: real, ratio: real, x: real, t: real)
    requires ratio > 0.0 && x > 0.0 && 0.0 < t <= 2147483647.0
    requires Abs(y * ratio - x) <= ULP * x && x * (1.0 - ULP) <= ratio * t
    ensures y < t + 1.0
  {
    CloseAbove(y * ratio, ratio * t, x);
    var c := t * (1.0 + 4.0 * ULP);
    assert ratio * t * (1.0 + 4.0 * ULP) == c * ratio;
    ScaledOrder(c, y, ratio);
  }

  /** In the direction that decides the ratio it misses the target by one pixel at most. */
  lemma ScaledReaches(fl: real -> real, x: nat, t: nat, ratio: real)
    requires Relative(fl) && Size(x) && Size(t) && ratio == fl(x as real / t as real)
    ensures ratio > 0.0 && t - 1 <= Scaled(fl, x, ratio)
  {
    hide Relative;
    var r := SizeQuotient(fl, x, t);
    ScaledFits(fl, x, t, ratio);
    RatioCovers(r, ratio, x as real, t as real);
    var y := SecondQuotient(fl, x, ratio);
    Above(y, ratio, x as real, t as real);
  }

  lemma CloseAbove(y: real, p: real, x: real)
    requires x > 0.0 && y <= x + ULP * x && x * (1.0 - ULP) <= p
    ensures y <= p * (1.0 + 4.0 * ULP)
  {
  }

  lemma CloseBelow(y: real, p: real, x: real)
    requires x > 0.0 && x - ULP * x <= y && p <= x + ULP * x
    ensures p * (1.0 - 4.0 * ULP) <= y
  {
  }

  lemma Above(y: real, ratio: real, x: real, t: real)
    requires ratio > 0.0 && x > 0.0 && 0.0 < t <= 2147483647.0
    requires Abs(y * ratio - x) <= ULP * x && Abs(ratio * t - x) <= ULP * x
    ensures y > t - 1.0
  {
    CloseBelow(y * ratio, ratio * t, x);
    var c := t * (1.0 - 4.0 * ULP);
    assert ratio * t * (1.0 - 4.0 * ULP) == c * ratio;
    ScaledOrder(y, c, ratio);
  }

  /** Both sides of an image: it fits, and one side misses its target by one at most. */
  lemma BothSides(fl: real -> real, h: nat, w: nat, th: nat, tw: nat)
    requires Relative(fl) && Size(h) && Size(w) && Size(th) && Size(tw)
    ensures var r := Ratio(fl, h, w, th, tw);
            && r > 0.0 && Scaled(fl, h, r) <= th && Scaled(fl, w, r) <= tw
            && (Scaled(fl, h, r) >= th - 1 || Scaled(fl, w, r) >= tw - 1)
            && (Scaled(fl, h, r) == th <==> fl(h as real / r) >= th as real)
            && (Scaled(fl, w, r) == tw <==> fl(w as real / r) >= tw as real)
  {
    var a := SizeQuotient(fl, w, tw);
    var b := SizeQuotient(fl, h, th);
    var r := Ratio(fl, h, w, th, tw);
    ScaledFits(fl, h, th, r);
    ScaledFits(fl, w, tw, r);
    if a >= b { ScaledReaches(fl, w, tw, r); } else { ScaledReaches(fl, h, th, r); }
  }

  // ---------------------------------------------------------------- in double

  lemma DoubleRelative(fl: real -> real)
    requires RoundsToDouble(fl)
    ensures Relative(fl)
  {
    hide Double;
    forall t | SMALL <= t <= BIG
      ensures Abs(fl(t) - t) <= ULP * t
    {
      var z := CloseDouble(t);
      assert NearestDouble(fl(t), t);
    }
  }

  const FIRST: nat := 4664442471205157

  /** 58 / 224 rounds up to a double, ... */
  lemma FirstQuotient(y: real)
    requires NearestDouble(y, 58.0 / 224.0)
    ensures y == FIRST as real / 18014398509481984.0
  {
    Pow54();
    assert Down(FIRST, 54) == FIRST as real / 18014398509481984.0;
    assert Double(Down(FIRST, 54));
    hide Pow2, Down;
    var n := QuarterGrid(y);
  }

  /** ... and 58 divided by that, truncated, is 223: neither side of a 58 x 58 image reaches
      224. */
  lemma FiftyEight(fl: real -> real)
    requires RoundsToDouble(fl)
    ensures Ratio(fl, 58, 58, 224, 224) > 0.0 && Scaled(fl, 58, Ratio(fl, 58, 58, 224, 224)) == 223
  {
    var y := fl(58.0 / 224.0);
    assert NearestDouble(y, 58.0 / 224.0);
    FirstQuotient(y);
    var t := 58.0 / y;
    var q := fl(t);
    assert NearestDouble(q, t);
    Pow54();
    var below := 7881299347898367;  // 224 2^45 - 1
    assert Down(below, 45) == below as real / 35184372088832.0;
    assert Double(Down(below, 45));
  }
}
