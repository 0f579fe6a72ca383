/**
 Resize with padding (resize_pad_float in image.cpp): bilinear interpolation of an
 interleaved RGB image into a planar float image, padded on the left and on top.
 */
module Resize {
  import opened Wrappers
  import Powers
  import opened Doubles
  import opened ResizeSizes

  type Byte = b: int | 0 <= b < 256

  lemma Larger(a: real, b: real, c: real)
    requires a >= b && c > 0.0
    ensures a * c >= b * c
  {
    assert (a - b) * c >= 0.0;
  }

  lemma Product(a: real, b: real)
    requires a >= 0.0 && b >= 0.0
    ensures a * b >= 0.0
  {
  }

  // ---------------------------------------------------------------- one axis

  /** The two source indices of an output index and the weight of the second. */
  datatype Tap = Tap(i0: nat, i1: nat, lam: real)

  /** The source coordinate of the centre of output i, not below 0. */
  function Source(n: nat, rn: nat, i: nat): (s: real)
    requires rn > 0
    ensures s >= 0.0
  {
    var s := n as real / rn as real * (i as real + 0.5) - 0.5;
    if s < 0.0 then 0.0 else s
  }

  function TapOf(n: nat, src: real): (t: Tap)
    requires n > 0 && src >= 0.0
    ensures t.i0 <= t.i1 < n && t.i1 <= t.i0 + 1
  {
    var i0 := if src.Floor > n - 1 then n - 1 else src.Floor;
    var i1 := if i0 + 1 < n - 1 then i0 + 1 else n - 1;
    Tap(i0, i1, src - i0 as real)
  }

  function TapAt(n: nat, rn: nat, i: nat): Tap
    requires n > 0 && rn > 0
  {
    TapOf(n, Source(n, rn, i))
  }

  lemma SourceInside(n: nat, rn: nat, i: nat)
    requires n > 0 && i < rn
    ensures Source(n, rn, i) < n as real
  {
    var scale, c := n as real / rn as real, i as real + 0.5;
    assert c <= rn as real - 0.5;
    Larger(rn as real, c, scale);
    assert scale * rn as real == n as real;
  }

  /** Reads stay in the image (TapOf: whatever the source coordinate), and the weights of the
      two taps are 1 - lam and lam, lam in [0, 1). */
  lemma TapInside(n: nat, rn: nat, i: nat)
    requires n > 0 && i < rn
    ensures var t := TapAt(n, rn, i); t.i0 <= t.i1 < n && t.i1 <= t.i0 + 1 && 0.0 <= t.lam < 1.0
  {
    SourceInside(n, rn, i);
  }

  /** Half-pixel centres: the coordinate before it is cut off at 0, from which Source differs
      there only, mirrors about the middle of the axis, ... */
  lemma SourceMirrors(n: nat, rn: nat, i: nat)
    requires n > 0 && i < rn && Source(n, rn, i) > 0.0 && Source(n, rn, rn - 1 - i) > 0.0
    ensures Source(n, rn, i) + Source(n, rn, rn - 1 - i) == n as real - 1.0
  {
    var scale, a, b := n as real / rn as real, i as real + 0.5, (rn - 1 - i) as real + 0.5;
    assert scale * rn as real == n as real;
    assert scale * a + scale * b == scale * rn as real;
  }

  /** ... moves by the ratio of the sizes from one output to the next, ... */
  lemma SourceSteps(n: nat, rn: nat, i: nat)
    requires n > 0 && i + 1 < rn && Source(n, rn, i) > 0.0
    ensures Source(n, rn, i + 1) - Source(n, rn, i) == n as real / rn as real
  {
    var scale := n as real / rn as real;
    assert scale > 0.0;
    assert scale * ((i + 1) as real + 0.5) == scale * (i as real + 0.5) + scale;
  }

  /** ... and at half the size lies in the middle of two pixels. */
  lemma HalfSize(m: nat, i: nat)
    requires i < m
    ensures Source(2 * m, m, i) == (2 * i) as real + 0.5
    ensures TapAt(2 * m, m, i).i0 == 2 * i && TapAt(2 * m, m, i).i1 == 2 * i + 1 && TapAt(2 * m, m, i).lam == 0.5
  {
    hide TapOf;
    TwoM(m as real);
    MiddleTap(2 * m, 2 * i);
  }

  lemma TwoM(m: real)
    requires m > 0.0
    ensures 2.0 * m / m == 2.0
  {
  }

  lemma MiddleTap(n: nat, k: nat)
    requires k + 1 < n
    ensures TapOf(n, k as real + 0.5) == Tap(k, k + 1, 0.5)
  {
  }

  /** At equal sizes every tap is the pixel itself. */
  lemma TapIdentity(n: nat, i: nat)
    requires i < n
    ensures TapAt(n, n, i).i0 == i && TapAt(n, n, i).lam == 0.0
  {
    assert n as real / n as real == 1.0;
  }

  // ---------------------------------------------------------------- pixels

  function Value(rgb: seq<Byte>, w: nat, y: nat, x: nat, c: nat): (v: real)
    requires y * (w * 3) + (x * 3 + c) < |rgb|
    ensures 0.0 <= v <= 1.0
  {
    var b: int := rgb[y * (w * 3) + (x * 3 + c)];
    b as real / 255.0
  }

  function Mix(lam: real, a: real, b: real): real
  {
    (1.0 - lam) * a + lam * b
  }

  lemma MixBetween(lam: real, a: real, b: real, lo: real, hi: real)
    requires 0.0 <= lam <= 1.0 && lo <= a <= hi && lo <= b <= hi
    ensures lo <= Mix(lam, a, b) <= hi
  {
    Product(1.0 - lam, a - lo);
    Product(lam, b - lo);
    Product(1.0 - lam, hi - a);
    Product(lam, hi - b);
    assert Mix(lam, a, b) - lo == (1.0 - lam) * (a - lo) + lam * (b - lo);
    assert hi - Mix(lam, a, b) == (1.0 - lam) * (hi - a) + lam * (hi - b);
  }

  /** Pixel (y, x) of the source is inside the buffer. */
  lemma PixelInside(h: nat, w: nat, y: nat, x: nat, c: nat)
    requires y < h && x < w && c < 3
    ensures 0 <= y * (w * 3) + (x * 3 + c) < h * (w * 3)
  {
    Powers.MulMono(y + 1, h, w * 3);
    assert (y + 1) * (w * 3) == y * (w * 3) + w * 3;
  }

  /** Output channel c at (oy, ox) of the resized image. */
  function Pixel(rgb: seq<Byte>, h: nat, w: nat, ty: Tap, tx: Tap, c: nat): real
    requires |rgb| == h * (w * 3) && ty.i0 < h && ty.i1 < h && tx.i0 < w && tx.i1 < w && c < 3
  {
    PixelInside(h, w, ty.i0, tx.i0, c);
    PixelInside(h, w, ty.i0, tx.i1, c);
    PixelInside(h, w, ty.i1, tx.i0, c);
    PixelInside(h, w, ty.i1, tx.i1, c);
    Mix(ty.lam, Mix(tx.lam, Value(rgb, w, ty.i0, tx.i0, c), Value(rgb, w, ty.i0, tx.i1, c)),
                Mix(tx.lam, Value(rgb, w, ty.i1, tx.i0, c), Value(rgb, w, ty.i1, tx.i1, c)))
  }

  /** A pixel lies between the least and the greatest of its four sources, so in [0, 1]. */
  lemma PixelConvex(rgb: seq<Byte>, h: nat, w: nat, ty: Tap, tx: Tap, c: nat, lo: real, hi: real)
    requires |rgb| == h * (w * 3) && ty.i0 < h && ty.i1 < h && tx.i0 < w && tx.i1 < w && c < 3
    requires 0.0 <= ty.lam <= 1.0 && 0.0 <= tx.lam <= 1.0
    requires forall y, x :: (y == ty.i0 || y == ty.i1) && (x == tx.i0 || x == tx.i1) ==>
               (PixelInside(h, w, y, x, c); lo <= Value(rgb, w, y, x, c) <= hi)
    ensures lo <= Pixel(rgb, h, w, ty, tx, c) <= hi
  {
    PixelInside(h, w, ty.i0, tx.i0, c);
    PixelInside(h, w, ty.i0, tx.i1, c);
    PixelInside(h, w, ty.i1, tx.i0, c);
    PixelInside(h, w, ty.i1, tx.i1, c);
    var a, b := Value(rgb, w, ty.i0, tx.i0, c), Value(rgb, w, ty.i0, tx.i1, c);
    var d, e := Value(rgb, w, ty.i1, tx.i0, c), Value(rgb, w, ty.i1, tx.i1, c);
    MixBetween(tx.lam, a, b, lo, hi);
    MixBetween(tx.lam, d, e, lo, hi);
    MixBetween(ty.lam, Mix(tx.lam, a, b), Mix(tx.lam, d, e), lo, hi);
  }

  // ---------------------------------------------------------------- the planar target

  function Index(th: nat, tw: nat, c: nat, y: nat, x: nat): nat
  {
    c * (th * tw) + (y * tw + x)
  }

  lemma InPlane(th: nat, tw: nat, y: nat, x: nat)
    requires y < th && x < tw
    ensures y * tw + x < th * tw
  {
    Powers.MulMono(y + 1, th, tw);
    assert (y + 1) * tw == y * tw + tw;
  }

  lemma IndexInside(th: nat, tw: nat, c: nat, y: nat, x: nat)
    requires c < 3 && y < th && x < tw
    ensures Index(th, tw, c, y, x) < 3 * (th * tw)
  {
    InPlane(th, tw, y, x);
    Powers.MulMono(c + 1, 3, th * tw);
    assert (c + 1) * (th * tw) == c * (th * tw) + th * tw;
  }

  /** Different cells have different indices. */
  lemma IndexDistinct(th: nat, tw: nat, c: nat, y: nat, x: nat, c': nat, y': nat, x': nat)
    requires y < th && x < tw && y' < th && x' < tw
    requires Index(th, tw, c, y, x) == Index(th, tw, c', y', x')
    ensures c == c' && y == y' && x == x'
  {
    InPlane(th, tw, y, x);
    InPlane(th, tw, y', x');
    var p, p', area := y * tw + x, y' * tw + x', th * tw;
    assert c * area + p == c' * area + p';
    SameDigits(area, c, p, c', p');
    SameDigits(tw, y, x, y', x');
  }

  lemma SameDigits(m: nat, q: nat, r: nat, q': nat, r': nat)
    requires r < m && r' < m && q * m + r == q' * m + r'
    ensures q == q' && r == r'
  {
    Powers.DivUnique(q * m + r, m, q, r);
    Powers.DivUnique(q' * m + r', m, q', r');
  }

  // ---------------------------------------------------------------- the call

  /** Source and target sizes, and the size of the resized image. */
  datatype Sizes = Sizes(h: nat, w: nat, th: nat, tw: nat, rh: nat, rw: nat)

  ghost predicate Proper(z: Sizes, rgb: seq<Byte>)
  {
    && z.h > 0 && z.w > 0 && 0 < z.rh <= z.th && 0 < z.rw <= z.tw && |rgb| == z.h * (z.w * 3)
  }

  /** What cell (c, y, x) of the target is to hold. */
  function Cell(z: Sizes, rgb: seq<Byte>, c: nat, y: nat, x: nat): real
    requires Proper(z, rgb) && c < 3 && y < z.th && x < z.tw
  {
    var padH, padW := z.th - z.rh, z.tw - z.rw;
    if y < padH || x < padW then 0.0
    else
      TapInside(z.h, z.rh, y - padH);
      TapInside(z.w, z.rw, x - padW);
      Pixel(rgb, z.h, z.w, TapAt(z.h, z.rh, y - padH), TapAt(z.w, z.rw, x - padW), c)
  }

  /** The padding is zero, and every other cell is in [0, 1]. */
  lemma CellRange(z: Sizes, rgb: seq<Byte>, c: nat, y: nat, x: nat)
    requires Proper(z, rgb) && c < 3 && y < z.th && x < z.tw
    ensures 0.0 <= Cell(z, rgb, c, y, x) <= 1.0
    ensures y < z.th - z.rh || x < z.tw - z.rw ==> Cell(z, rgb, c, y, x) == 0.0
  {
    var padH, padW := z.th - z.rh, z.tw - z.rw;
    if y >= padH && x >= padW {
      TapInside(z.h, z.rh, y - padH);
      TapInside(z.w, z.rw, x - padW);
      PixelConvex(rgb, z.h, z.w, TapAt(z.h, z.rh, y - padH), TapAt(z.w, z.rw, x - padW), c, 0.0, 1.0);
    }
  }

  /** At equal sizes the target is the source, plane by plane, divided by 255. */
  lemma EqualSizesIdentity(fl: real -> real, h: nat, w: nat, rgb: seq<Byte>, c: nat, y: nat, x: nat)
    requires RoundsToDouble(fl) && Size(h) && Size(w) && |rgb| == h * (w * 3) && c < 3 && y < h && x < w
    ensures var r := Ratio(fl, h, w, h, w); r > 0.0 && Scaled(fl, h, r) == h && Scaled(fl, w, r) == w
    ensures y * (w * 3) + (x * 3 + c) < |rgb|
    ensures Cell(Sizes(h, w, h, w, h, w), rgb, c, y, x) == Value(rgb, w, y, x, c)
  {
    hide RoundsToDouble;
    UnitRatio(fl, h, w);
    TapIdentity(h, y);
    TapIdentity(w, x);
    PixelInside(h, w, y, x, c);
  }

  lemma SelfQuotient(x: real)
    requires x > 0.0
    ensures x / x == 1.0 && x / 1.0 == x
  {
  }

  lemma UnitRatio(fl: real -> real, h: nat, w: nat)
    requires RoundsToDouble(fl) && Size(h) && Size(w)
    ensures Ratio(fl, h, w, h, w) == 1.0 && Scaled(fl, h, 1.0) == h && Scaled(fl, w, 1.0) == w
  {
    hide RoundsToDouble, Double;
    SelfQuotient(h as real);
    SelfQuotient(w as real);
    IntegerDouble(1);
    IntegerDouble(h);
    IntegerDouble(w);
    DoubleExact(fl, 1.0);
    DoubleExact(fl, h as real);
    DoubleExact(fl, w as real);
  }

  /** The three channels of one output pixel. */
  method WritePixel(z: Sizes, rgb: seq<Byte>, chw: array<real>, y: nat, x: nat)
    requires Proper(z, rgb) && y < z.th && x < z.tw && chw.Length == 3 * (z.th * z.tw)
    modifies chw
    ensures forall c: nat, v: nat, u: nat :: c < 3 && v < z.th && u < z.tw ==>
              Index(z.th, z.tw, c, v, u) < chw.Length &&
              chw[Index(z.th, z.tw, c, v, u)] ==
                if v == y && u == x then Cell(z, rgb, c, y, x) else old(chw[Index(z.th, z.tw, c, v, u)])
  {
    hide Cell, Index, Proper;
    AllInside(z.th, z.tw);
    var k := 0;
    while k < 3
      invariant 0 <= k <= 3
      invariant forall c: nat, v: nat, u: nat :: c < 3 && v < z.th && u < z.tw ==>
        chw[Index(z.th, z.tw, c, v, u)] ==
          if v == y && u == x && c < k then Cell(z, rgb, c, y, x) else old(chw[Index(z.th, z.tw, c, v, u)])
    {
      NoOther(z.th, z.tw, k, y, x);
      chw[Index(z.th, z.tw, k, y, x)] := Cell(z, rgb, k, y, x);
      k := k + 1;
    }
  }

  lemma AllInside(th: nat, tw: nat)
    ensures forall c: nat, y: nat, x: nat :: c < 3 && y < th && x < tw ==> Index(th, tw, c, y, x) < 3 * (th * tw)
  {
    forall c: nat, y: nat, x: nat | c < 3 && y < th && x < tw
      ensures Index(th, tw, c, y, x) < 3 * (th * tw)
    {
      IndexInside(th, tw, c, y, x);
    }
  }

  lemma NoOther(th: nat, tw: nat, c: nat, y: nat, x: nat)
    requires y < th && x < tw
    ensures forall d: nat, v: nat, u: nat :: v < th && u < tw && !(d == c && v == y && u == x) ==>
              Index(th, tw, d, v, u) != Index(th, tw, c, y, x)
  {
    forall d: nat, v: nat, u: nat | v < th && u < tw && !(d == c && v == y && u == x)
      ensures Index(th, tw, d, v, u) != Index(th, tw, c, y, x)
    {
      if Index(th, tw, d, v, u) == Index(th, tw, c, y, x) { IndexDistinct(th, tw, d, v, u, c, y, x); }
    }
  }

  /** Every cell of the target is there and holds what Cell says. */
  ghost predicate Filled(z: Sizes, rgb: seq<Byte>, chw: array<real>)
    requires Proper(z, rgb)
    reads chw
  {
    chw.Length == 3 * (z.th * z.tw) &&
    forall c: nat, y: nat, x: nat :: c < 3 && y < z.th && x < z.tw ==>
      Index(z.th, z.tw, c, y, x) < chw.Length && chw[Index(z.th, z.tw, c, y, x)] == Cell(z, rgb, c, y, x)
  }

  /** Fills the resized rectangle row by row; the padding is never written. */
  method FillTarget(z: Sizes, rgb: seq<Byte>, chw: array<real>)
    requires Proper(z, rgb) && chw.Length == 3 * (z.th * z.tw)
    requires forall i :: 0 <= i < chw.Length ==> chw[i] == 0.0
    modifies chw
    ensures Filled(z, rgb, chw)
  {
    hide Index, Pixel, TapAt;
    var padH, padW := z.th - z.rh, z.tw - z.rw;
    AllInside(z.th, z.tw);
    var oy := 0;
    while oy < z.rh
      invariant 0 <= oy <= z.rh
      invariant forall c: nat, y: nat, x: nat :: c < 3 && y < z.th && x < z.tw ==>
        chw[Index(z.th, z.tw, c, y, x)] == if y < oy + padH then Cell(z, rgb, c, y, x) else 0.0
    {
      var ox := 0;
      while ox < z.rw
        invariant 0 <= ox <= z.rw
        invariant forall c: nat, y: nat, x: nat :: c < 3 && y < z.th && x < z.tw ==>
          chw[Index(z.th, z.tw, c, y, x)] ==
            if y < oy + padH || (y == oy + padH && x < ox + padW) then Cell(z, rgb, c, y, x) else 0.0
      {
        WritePixel(z, rgb, chw, oy + padH, ox + padW);
        ox := ox + 1;
      }
      oy := oy + 1;
    }
  }

  /** Nothing is empty and the resized image has a pixel. */
  predicate Resizable(fl: real -> real, h: nat, w: nat, th: nat, tw: nat)
  {
    && h > 0 && w > 0 && th > 0 && tw > 0
    && var r := Ratio(fl, h, w, th, tw); r > 0.0 && Scaled(fl, h, r) > 0 && Scaled(fl, w, r) > 0
  }

  function Resized(fl: real -> real, h: nat, w: nat, th: nat, tw: nat): Sizes
    requires Resizable(fl, h, w, th, tw)
  {
    var r := Ratio(fl, h, w, th, tw);
    Sizes(h, w, th, tw, Scaled(fl, h, r), Scaled(fl, w, r))
  }

  lemma ResizedProper(fl: real -> real, h: nat, w: nat, th: nat, tw: nat, rgb: seq<Byte>)
    requires Relative(fl) && h <= MAX_INT && w <= MAX_INT && th <= MAX_INT && tw <= MAX_INT
    requires Resizable(fl, h, w, th, tw) && |rgb| == h * (w * 3)
    ensures var z := Resized(fl, h, w, th, tw); Proper(z, rgb) && (z.rh >= th - 1 || z.rw >= tw - 1)
  {
    hide Relative, Ratio, Scaled;
    BothSides(fl, h, w, th, tw);
  }

  /** resize_pad_float; None where it returns false.  (A zero target makes the ratio
      infinite and the resized size zero.) */
  method ResizePad(fl: real -> real, rgb: seq<Byte>, h: nat, w: nat, tw: nat, th: nat)
    returns (out: Option<array<real>>)
    requires Relative(fl) && h <= MAX_INT && w <= MAX_INT && th <= MAX_INT && tw <= MAX_INT && |rgb| == h * (w * 3)
    ensures out.Some? <==> Resizable(fl, h, w, th, tw)
    ensures out.Some? ==>
              var z := Resized(fl, h, w, th, tw);
              Proper(z, rgb) && (z.rh >= th - 1 || z.rw >= tw - 1) && Filled(z, rgb, out.value)
  {
    hide Cell, Index, Filled, Relative, Proper, Ratio, Scaled;
    if h == 0 || w == 0 || th == 0 || tw == 0 { return None; }
    BothSides(fl, h, w, th, tw);
    var ratio := Ratio(fl, h, w, th, tw);
    var rh, rw := Scaled(fl, h, ratio), Scaled(fl, w, ratio);
    if rh == 0 || rw == 0 { return None; }
    ResizedProper(fl, h, w, th, tw, rgb);
    var chw := new real[3 * (th * tw)](i => 0.0);
    FillTarget(Sizes(h, w, th, tw, rh, rw), rgb, chw);
    out := Some(chw);
  }
}
