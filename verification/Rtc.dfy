/**
 Real-time chunking arithmetic (modeling_rtc.py) over the reals: the prefix weights of
 the four schedules and the guidance weight.
 */
module Rtc {
  type Weights = seq<real>

  datatype Schedule = Zeros | Ones | Linear | Exp

  /** What the EXP schedule needs of expm1 on [0, 1]; top is its value at 1 (e - 1). */
  ghost predicate LikeExpm1(expm1: real -> real, top: real)
  {
    && expm1(0.0) == 0.0 && expm1(1.0) == top > 0.0
    && (forall x, y :: 0.0 <= x <= y <= 1.0 ==> expm1(x) <= expm1(y))
  }

  function Min(a: int, b: int): int
  {
    if a < b then a else b
  }

  // ---------------------------------------------------------------- the specification

  /** The falling line from 1 at start to 0 at the end of the horizon, at position i. */
  function Line(start: nat, steps: nat, i: nat): real
  {
    1.0 - (i - start + 1) as real / (steps + 1) as real
  }

  function Curve(x: real, expm1: real -> real, top: real): real
    requires top != 0.0
  {
    x * (expm1(x) / top)
  }

  /** Weight i of a schedule: ones before start, zeros from end on, the schedule between. */
  function WeightAt(sch: Schedule, start: nat, end: nat, total: nat, expm1: real -> real, top: real, i: nat): real
    requires top != 0.0
  {
    var s, e := Min(start, end), Min(end, total);
    if i < s then 1.0
    else if i >= end then 0.0
    else
      match sch
      case Zeros => 0.0
      case Ones => 1.0
      case Linear => Line(s, if e >= s then e - s else 0, i)
      case Exp => Curve(Line(s, if e >= s then e - s else 0, i), expm1, top)
  }

  // ---------------------------------------------------------------- the code

  /** weights[lo:hi] = value, as Python clamps slices. */
  method Fill(w: array<real>, lo: nat, hi: nat, value: real)
    modifies w
    ensures forall i :: 0 <= i < w.Length ==> w[i] == if lo <= i < hi then value else old(w[i])
  {
    var i := lo;
    while i < hi && i < w.Length
      invariant lo <= i
      invariant forall j :: 0 <= j < w.Length ==> w[j] == if lo <= j < i && j < hi then value else old(w[j])
    {
      w[i] := value;
      i := i + 1;
    }
  }

  /** _linweights: the inner points of a linspace from 1 to 0. */
  function LinWeights(start: nat, end: nat, total: nat): (r: Weights)
  {
    var steps := total - (if total > end then total - end else 0) - start;
    if end <= start || steps <= 0 then []
    else seq(steps, i requires 0 <= i < steps => 1.0 - (i + 1) as real / (steps + 1) as real)
  }

  function AddTrailingZeros(w: Weights, total: nat, end: nat): Weights
  {
    if total <= end then w else w + seq(total - end, _ => 0.0)
  }

  function AddLeadingOnes(w: Weights, start: nat, total: nat): Weights
  {
    if Min(start, total) <= 0 then w else seq(Min(start, total), _ => 1.0) + w
  }

  /** get_prefix_weights: exactly `total` weights, each as WeightAt says. */
  method GetPrefixWeights(sch: Schedule, start0: nat, end: nat, total: nat, expm1: real -> real, top: real)
    returns (r: Weights)
    requires top != 0.0
    ensures |r| == total
    ensures forall i :: 0 <= i < total ==> r[i] == WeightAt(sch, start0, end, total, expm1, top, i)
  {
    hide LinWeights, AddLeadingOnes, AddTrailingZeros, Line;
    var start: nat := Min(start0, end);
    match sch
    case Zeros =>
      var w := new real[total](_ => 0.0);
      Fill(w, 0, start, 1.0);
      r := w[..];
    case Ones =>
      var w := new real[total](_ => 1.0);
      Fill(w, end, total, 0.0);
      r := w[..];
    case Linear =>
      r := LinWeights(start, end, total);
      LinIsLine(start, end, total);
      MiddleIs(sch, r, start0, end, total, expm1, top);
      r := AddTrailingZeros(r, total, end);
      r := AddLeadingOnes(r, start, total);
    case Exp =>
      var lin := LinWeights(start, end, total);
      r := seq(|lin|, i requires 0 <= i < |lin| => lin[i] * (expm1(lin[i]) / top));
      LinIsLine(start, end, total);
      MiddleIs(sch, r, start0, end, total, expm1, top);
      r := AddTrailingZeros(r, total, end);
      r := AddLeadingOnes(r, start, total);
  }

  lemma LinIsLine(start: nat, end: nat, total: nat)
    requires start <= end
    ensures var lin, e := LinWeights(start, end, total), Min(end, total);
            && |lin| == (if e > start then e - start else 0)
            && forall k :: 0 <= k < |lin| ==> lin[k] == Line(start, |lin|, start + k)
  {
  }

  /** A middle part with the schedule's values gives the schedule's weights. */
  lemma MiddleIs(sch: Schedule, mid: Weights, start0: nat, end: nat, total: nat, expm1: real -> real, top: real)
    requires top != 0.0 && (sch == Linear || sch == Exp)
    requires var s, e := Min(start0, end), Min(end, total);
             && |mid| == (if e > s then e - s else 0)
             && forall k :: 0 <= k < |mid| ==>
                  mid[k] == var x := Line(s, |mid|, s + k); if sch == Linear then x else Curve(x, expm1, top)
    ensures var r := AddLeadingOnes(AddTrailingZeros(mid, total, end), Min(start0, end), total);
            |r| == total && forall i :: 0 <= i < total ==> r[i] == WeightAt(sch, start0, end, total, expm1, top, i)
  {
    hide Line, Curve, AddLeadingOnes, AddTrailingZeros;
    var s: nat := Min(start0, end);
    Assembled(mid, s, end, total);
    var r := AddLeadingOnes(AddTrailingZeros(mid, total, end), s, total);
    forall i | 0 <= i < total
      ensures r[i] == WeightAt(sch, start0, end, total, expm1, top, i)
    {
      if s <= i < end { assert mid[i - s] == mid[i - s] && s + (i - s) == i; }
    }
  }

  /** Ones, the middle and zeros fill the chunk exactly. */
  lemma Assembled(mid: Weights, start: nat, end: nat, total: nat)
    requires start <= end && |mid| == (if Min(end, total) > start then Min(end, total) - start else 0)
    ensures var r := AddLeadingOnes(AddTrailingZeros(mid, total, end), start, total);
            && |r| == total
            && forall i :: 0 <= i < total ==>
                 (i < start ==> r[i] == 1.0) && (i >= end ==> r[i] == 0.0)
                 && (start <= i < end ==> i - start < |mid| && r[i] == mid[i - start])
  {
  }

  // ---------------------------------------------------------------- properties

  /** The line falls in equal steps, from one step below 1 to one step above 0. */
  lemma LineSteps(s: nat, steps: nat, i: nat)
    requires s <= i < s + steps
    ensures var step := 1.0 / (steps + 1) as real;
            && Line(s, steps, s) == 1.0 - step && Line(s, steps, s + steps - 1) == step
            && (i + 1 < s + steps ==> Line(s, steps, i) - Line(s, steps, i + 1) == step)
  {
    var n := (steps + 1) as real;
    assert steps as real / n + 1.0 / n == 1.0;
    assert (i - s + 2) as real / n == (i - s + 1) as real / n + 1.0 / n;
  }

  /** The LINEAR and the EXP weights at a position of the middle. */
  lemma MiddleWeights(start: nat, end: nat, total: nat, expm1: real -> real, top: real, i: nat)
    requires top != 0.0 && start <= i < end <= total
    ensures var x := 1.0 - (i - start + 1) as real / (end - start + 1) as real;
            && WeightAt(Linear, start, end, total, expm1, top, i) == x
            && WeightAt(Exp, start, end, total, expm1, top, i) == x * (expm1(x) / top)
            && WeightAt(Zeros, start, end, total, expm1, top, i) == 0.0
            && WeightAt(Ones, start, end, total, expm1, top, i) == 1.0
  {
  }

  /** Before the delay the old actions have full weight, behind the horizon none. */
  lemma OuterWeights(sch: Schedule, start: nat, end: nat, total: nat, expm1: real -> real, top: real, i: nat)
    requires top != 0.0
    ensures i < start && i < end ==> WeightAt(sch, start, end, total, expm1, top, i) == 1.0
    ensures i >= end ==> WeightAt(sch, start, end, total, expm1, top, i) == 0.0
  {
  }

  lemma LineRange(s: nat, steps: nat, i: nat)
    requires s <= i < s + steps
    ensures 0.0 < Line(s, steps, i) < 1.0
  {
    Fraction(i - s + 1, steps + 1);
  }

  lemma Fraction(a: nat, b: nat)
    requires 0 < a < b
    ensures 0.0 < a as real / b as real < 1.0
  {
  }

  lemma LineFalls(s: nat, steps: nat, i: nat, j: nat)
    requires s <= i <= j
    ensures Line(s, steps, j) <= Line(s, steps, i)
  {
    FractionGrows((i - s + 1) as real, (j - s + 1) as real, (steps + 1) as real);
  }

  lemma FractionGrows(a: real, b: real, c: real)
    requires a <= b && c > 0.0
    ensures a / c <= b / c
  {
    assert (b - a) / c >= 0.0;
    assert (b - a) / c == b / c - a / c;
  }

  lemma CurveRange(x: real, expm1: real -> real, top: real)
    requires LikeExpm1(expm1, top) && 0.0 <= x <= 1.0
    ensures 0.0 <= expm1(x) / top <= 1.0 && 0.0 <= Curve(x, expm1, top) <= x
  {
    var y := expm1(x);
    assert 0.0 <= y <= top;
    FractionGrows(0.0, y, top);
    FractionGrows(y, top, top);
    Shrink(x, y / top);
  }

  lemma Shrink(x: real, f: real)
    requires x >= 0.0 && 0.0 <= f <= 1.0
    ensures 0.0 <= x * f <= x
  {
    NotNegative(x, 1.0 - f);
    NotNegative(x, f);
    assert x * (1.0 - f) == x - x * f;
  }

  lemma CurveRises(x: real, y: real, expm1: real -> real, top: real)
    requires LikeExpm1(expm1, top) && 0.0 <= x <= y <= 1.0
    ensures Curve(x, expm1, top) <= Curve(y, expm1, top)
  {
    CurveRange(x, expm1, top);
    CurveRange(y, expm1, top);
    FractionGrows(expm1(x), expm1(y), top);
    ProductGrows(x, y, expm1(x) / top, expm1(y) / top);
  }

  lemma NotNegative(a: real, b: real)
    requires a >= 0.0 && b >= 0.0
    ensures a * b >= 0.0
  {
  }

  lemma ProductGrows(a: real, b: real, c: real, d: real)
    requires 0.0 <= a <= b && 0.0 <= c <= d
    ensures a * c <= b * d
  {
    NotNegative(b - a, c);
    NotNegative(b, d - c);
    assert b * d - a * c == (b - a) * c + b * (d - c);
  }

  /** Between start and the end of the horizon the line is defined and falls inside (0, 1). */
  lemma MiddleRange(start: nat, end: nat, total: nat, i: nat)
    requires Min(start, end) <= i < Min(end, total)
    ensures var s, e := Min(start, end), Min(end, total);
            e >= s && 0.0 < Line(s, e - s, i) < 1.0
  {
    LineRange(Min(start, end), Min(end, total) - Min(start, end), i);
  }

  /** All weights are in [0, 1], and ZEROS <= EXP <= LINEAR <= ONES at every position. */
  lemma SchedulesOrdered(start: nat, end: nat, total: nat, expm1: real -> real, top: real, i: nat)
    requires LikeExpm1(expm1, top) && i < total
    ensures 0.0 <= WeightAt(Zeros, start, end, total, expm1, top, i)
    ensures WeightAt(Zeros, start, end, total, expm1, top, i) <= WeightAt(Exp, start, end, total, expm1, top, i)
    ensures WeightAt(Exp, start, end, total, expm1, top, i) <= WeightAt(Linear, start, end, total, expm1, top, i)
    ensures WeightAt(Linear, start, end, total, expm1, top, i) <= WeightAt(Ones, start, end, total, expm1, top, i)
    ensures WeightAt(Ones, start, end, total, expm1, top, i) <= 1.0
  {
    hide Line, Curve, LikeExpm1;
    var s, e := Min(start, end), Min(end, total);
    if s <= i < end {
      MiddleRange(start, end, total, i);
      CurveRange(Line(s, e - s, i), expm1, top);
    }
  }

  /** The weights never rise along the chunk. */
  lemma WeightsFall(sch: Schedule, start: nat, end: nat, total: nat, expm1: real -> real, top: real, i: nat, j: nat)
    requires LikeExpm1(expm1, top) && i <= j < total
    ensures WeightAt(sch, start, end, total, expm1, top, j) <= WeightAt(sch, start, end, total, expm1, top, i)
  {
    hide Line, Curve, LikeExpm1;
    var s, e := Min(start, end), Min(end, total);
    SchedulesOrdered(start, end, total, expm1, top, i);
    SchedulesOrdered(start, end, total, expm1, top, j);
    if s <= i && j < end {
      MiddleRange(start, end, total, i);
      MiddleRange(start, end, total, j);
      LineFalls(s, e - s, i, j);
      CurveRises(Line(s, e - s, j), Line(s, e - s, i), expm1, top);
    }
  }

  // ---------------------------------------------------------------- the guidance weight

  /** A float quotient: 0/0 is not a number, x/0 infinite for x > 0. */
  datatype Ext = Fin(x: real) | Inf | NotANumber

  function Div(a: real, b: real): Ext
    requires a >= 0.0
  {
    if b != 0.0 then Fin(a / b) else if a > 0.0 then Inf else NotANumber
  }

  /** A product with x >= 0. */
  function Mul(x: real, b: Ext): Ext
  {
    match b
    case Fin(y) => Fin(x * y)
    case Inf => if x > 0.0 then Inf else NotANumber
    case NotANumber => NotANumber
  }

  /** torch.nan_to_num(v, posinf=max) */
  function NanToNum(v: Ext, max: real): real
  {
    match v case Fin(x) => x case Inf => max case NotANumber => 0.0
  }

  /** The guidance weight of denoise_step at tau, as it is computed. */
  function GuidanceWeight(tau: real, max: real): real
    requires 0.0 <= tau <= 1.0
  {
    var squared := (1.0 - tau) * (1.0 - tau);
    var invR2 := Div(squared + tau * tau, squared);
    var c := NanToNum(Div(1.0 - tau, tau), max);
    var w := NanToNum(Mul(c, invR2), max);
    if w < max then w else max
  }

  /** x + 1/x with x = (1 - tau) / tau */
  function Odds(tau: real): real
    requires 0.0 < tau < 1.0
  {
    (1.0 - tau) / tau + tau / (1.0 - tau)
  }

  lemma ZeroProduct(a: real, b: real)
    requires a * b == 0.0 && b > 0.0
    ensures a == 0.0
  {
  }

  lemma SmallSquare(s: real)
    requires 0.0 < s < 2.0
    ensures s * s < 4.0
  {
    assert s * (2.0 - s) > 0.0;
  }

  lemma SquareOfSum(p: real, q: real)
    ensures (p + q) * (p + q) == (p - q) * (p - q) + 4.0 * (p * q) && (p - q) * (p - q) >= 0.0
  {
    var d := p - q;
    assert d * d >= 0.0;
  }

  lemma OddsIs(u: real, t: real)
    requires u > 0.0 && t > 0.0
    ensures (u / t) * ((u * u + t * t) / (u * u)) == u / t + t / u
  {
    var p, q := u / t, t / u;
    assert u == p * t && t == q * u;
    var f := (u * u + t * t) / (u * u);
    assert f * (u * u) == u * u + t * t;
    assert q * q * (u * u) == t * t;
    assert (f - 1.0 - q * q) * (u * u) == f * (u * u) - u * u - q * q * (u * u) == 0.0;
    ZeroProduct(f - 1.0 - q * q, u * u);
    assert p * q == 1.0 by { assert p * q * u == p * t == u; }
    assert p * (q * q) == q by { assert p * (q * q) == (p * q) * q; }
    assert p * f == p + p * (q * q);
  }

  lemma AtLeastTwo(p: real, q: real)
    requires p > 0.0 && q > 0.0 && p * q == 1.0
    ensures p + q >= 2.0
  {
    SquareOfSum(p, q);
    if p + q < 2.0 { SmallSquare(p + q); }
  }

  /** Strictly inside (0, 1) the weight is the odds plus their inverse, capped. */
  lemma GuidanceIsOdds(tau: real, max: real)
    requires 0.0 < tau < 1.0
    ensures GuidanceWeight(tau, max) == if Odds(tau) < max then Odds(tau) else max
    ensures Odds(tau) >= 2.0
  {
    var u := 1.0 - tau;
    assert u * u > 0.0;
    OddsIs(u, tau);
    var p, q := u / tau, tau / u;
    assert p * q == 1.0 by { assert p * tau == u && q * u == tau; assert p * q * u == p * tau; }
    AtLeastTwo(p, q);
  }

  /** The weight is symmetric in tau and 1 - tau, and lies between min(2, max) and max. */
  lemma GuidanceBounds(tau: real, max: real)
    requires 0.0 < tau < 1.0
    ensures GuidanceWeight(1.0 - tau, max) == GuidanceWeight(tau, max)
    ensures (if max < 2.0 then max else 2.0) <= GuidanceWeight(tau, max) <= max
  {
    GuidanceIsOdds(tau, max);
    GuidanceIsOdds(1.0 - tau, max);
    assert 1.0 - (1.0 - tau) == tau;
  }

  /** At the ends: full weight at 0, but none at 1, where nan_to_num turns 0 * inf into 0. */
  lemma GuidanceAtEnds(max: real)
    requires max > 0.0
    ensures GuidanceWeight(0.0, max) == max && GuidanceWeight(1.0, max) == 0.0
  {
  }

  /** On all of [0, 1] the lower bound min(2, max) holds exactly below tau = 1. */
  lemma GuidanceBoundedExactlyWhen(tau: real, max: real)
    requires 0.0 <= tau <= 1.0 && max > 0.0
    ensures (if max < 2.0 then max else 2.0) <= GuidanceWeight(tau, max) <==> tau < 1.0
  {
    hide GuidanceWeight;
    GuidanceAtEnds(max);
    if 0.0 < tau < 1.0 { GuidanceBounds(tau, max); }
  }
}
