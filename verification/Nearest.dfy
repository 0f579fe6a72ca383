/**
 Rounding a real number to a finite, strictly increasing table of points: nearest
 point, ties to the even index.  The fp8 code table is one instance.
 */
module Nearest {

  function Abs(x: real): real
  {
    if x < 0.0 then -x else x
  }

  function Max(a: real, b: real): real
  {
    if a < b then b else a
  }

  ghost predicate Increasing(p: seq<real>)
  {
    forall i, j :: 0 <= i < j < |p| ==> p[i] < p[j]
  }

  predicate Closer(p: seq<real>, c: nat, d: nat, t: real)
    requires c < |p| && d < |p|
  {
    var dc, dd := Abs(p[c] - t), Abs(p[d] - t);
    dc < dd || (dc == dd && (c % 2 == 0 || d == c))
  }

  /** c is the index of the point nearest to t; of two equally near, the even one. */
  ghost predicate NearestEvenIn(p: seq<real>, c: nat, t: real)
  {
    c < |p| && forall d: nat :: d < |p| ==> Closer(p, c, d, t)
  }

  /** t lies below the midpoint of points c and c + 1, or on it when c is even. */
  predicate BelowMidpoint(p: seq<real>, c: nat, t: real)
    requires c + 1 < |p|
  {
    2.0 * t < p[c] + p[c + 1] || (2.0 * t == p[c] + p[c + 1] && c % 2 == 0)
  }

  /** The first index from c upwards whose upper midpoint t does not pass. */
  function Search(p: seq<real>, t: real, c: nat): (i: nat)
    requires c < |p|
    requires c > 0 ==> !BelowMidpoint(p, c - 1, t)
    ensures c <= i < |p|
    ensures i > 0 ==> !BelowMidpoint(p, i - 1, t)
    ensures i + 1 < |p| ==> BelowMidpoint(p, i, t)
    decreases |p| - c
  {
    if c + 1 == |p| || BelowMidpoint(p, c, t) then c else Search(p, t, c + 1)
  }

  function Round(p: seq<real>, t: real): nat
    requires |p| > 0
  {
    Search(p, t, 0)
  }

  /** The search finds the nearest point. */
  lemma RoundIsNearest(p: seq<real>, t: real)
    requires |p| > 0 && Increasing(p)
    ensures NearestEvenIn(p, Round(p, t), t)
  {
    var i := Round(p, t);
    forall d: nat | d < |p|
      ensures Closer(p, i, d, t)
    {
      if d < i {
        assert p[i - 1] < p[i];
        assert d < i - 1 ==> p[d] < p[i - 1];
      } else if d > i {
        assert p[i] < p[i + 1];
        assert d > i + 1 ==> p[i + 1] < p[d];
      }
    }
  }

  /** There is only one nearest point. */
  lemma NearestIsUnique(p: seq<real>, c: nat, d: nat, t: real)
    requires Increasing(p) && NearestEvenIn(p, c, t) && NearestEvenIn(p, d, t)
    ensures c == d
  {
    NearestAtMost(p, c, d, t);
    NearestAtMost(p, d, c, t);
  }

  lemma NearestAtMost(p: seq<real>, c: nat, d: nat, t: real)
    requires Increasing(p) && NearestEvenIn(p, c, t) && NearestEvenIn(p, d, t)
    ensures c <= d
  {
    assert Closer(p, c, d, t) && Closer(p, d, c, t);
    if d + 1 < |p| {
      assert Closer(p, d, d + 1, t) && p[d] < p[d + 1];
      assert forall j :: d + 1 < j < |p| ==> p[d + 1] < p[j];
    }
  }

  /** So the search finds it, and nothing else is nearest. */
  lemma NearestExactlyWhen(p: seq<real>, c: nat, t: real)
    requires |p| > 0 && Increasing(p)
    ensures NearestEvenIn(p, c, t) <==> c == Round(p, t)
  {
    hide NearestEvenIn, Round;
    RoundIsNearest(p, t);
    if NearestEvenIn(p, c, t) { NearestIsUnique(p, c, Round(p, t), t); }
  }

  /** The search is the only index between its two midpoints. */
  lemma {:induction false} SearchIsUnique(p: seq<real>, t: real, start: nat, c: nat)
    requires Increasing(p) && start <= c < |p|
    requires start > 0 ==> !BelowMidpoint(p, start - 1, t)
    requires c > 0 ==> !BelowMidpoint(p, c - 1, t)
    requires c + 1 < |p| ==> BelowMidpoint(p, c, t)
    ensures Search(p, t, start) == c
    decreases c - start
  {
    if start < c {
      assert p[start] <= p[c - 1] && p[start + 1] <= p[c];
      assert start < c - 1 ==> p[start] < p[c - 1];
      SearchIsUnique(p, t, start + 1, c);
    }
  }
}
