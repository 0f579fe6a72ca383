/**
 The in-place macro patcher of sweep.py: the numbers of a #define body are replaced,
 right to left, and nothing else.
 */
module MacroPatch {
  import opened Json
  import opened JsonRoundTrip
  import Powers

  // ---------------------------------------------------------------- numbers in a text

  /** How many bytes of s the pattern -?\d+ matches at its start, 0 if none. */
  function NumLen(s: string): (n: nat)
    ensures n <= |s|
  {
    if s != [] && s[0] == '-' then
      if Digits(s[1..]) == 0 then 0 else 1 + Digits(s[1..])
    else Digits(s)
  }

  /** re.findall: the matches, left to right, each as long as possible. */
  function Numbers(s: string): seq<string>
  {
    if s == [] then []
    else if NumLen(s) > 0 then [s[..NumLen(s)]] + Numbers(s[NumLen(s)..])
    else Numbers(s[1..])
  }

  /** The bytes outside the matches. */
  function Residue(s: string): string
  {
    if s == [] then []
    else if NumLen(s) > 0 then Residue(s[NumLen(s)..])
    else [s[0]] + Residue(s[1..])
  }

  predicate Separator(c: char)
  {
    c == ' ' || c == '\t' || c == '\r' || c == '\n' || c == ',' || c == '\\'
  }

  /** A body patch_macro accepts: numbers and separators only. */
  predicate Clean(s: string)
  {
    forall c <- Residue(s) :: Separator(c)
  }

  predicate IsNumber(t: string)
  {
    t != [] && NumLen(t) == |t|
  }

  /** int() of a match. */
  function ToInt(t: string): int
    requires IsNumber(t)
  {
    var d := if t[0] == '-' then t[1..] else t;
    assert forall i :: 0 <= i < |d| ==> Digit(d[i]);
    if t[0] == '-' then -(Decimal(d) as int) else Decimal(d)
  }

  lemma {:induction false} NumbersAreNumbers(s: string)
    ensures forall t <- Numbers(s) :: IsNumber(t)
    decreases |s|
  {
    if s != [] {
      if NumLen(s) > 0 {
        MatchWhole(s);
        NumbersAreNumbers(s[NumLen(s)..]);
      } else {
        NumbersAreNumbers(s[1..]);
      }
    }
  }

  lemma {:induction false} DigitsPrefix(s: string)
    ensures Digits(s[..Digits(s)]) == Digits(s)
  {
    if s != [] && Digit(s[0]) {
      assert s[..Digits(s)][1..] == s[1..][..Digits(s[1..])];
      DigitsPrefix(s[1..]);
    }
  }

  lemma MatchWhole(s: string)
    requires s != [] && NumLen(s) > 0
    ensures IsNumber(s[..NumLen(s)])
  {
    if s[0] == '-' {
      DigitsPrefix(s[1..]);
      assert s[..NumLen(s)][1..] == s[1..][..Digits(s[1..])];
    } else {
      DigitsPrefix(s);
    }
  }

  /** The values current_values reads. */
  function Values(s: string): (r: seq<int>)
    ensures |r| == |Numbers(s)|
  {
    NumbersAreNumbers(s);
    seq(|Numbers(s)|, i requires 0 <= i < |Numbers(s)| => ToInt(Numbers(s)[i]))
  }

  // ---------------------------------------------------------------- patching

  /** s with its numbers replaced, in order, by the values. */
  function Patch(s: string, vs: seq<int>): string
    requires |vs| == |Numbers(s)|
  {
    if s == [] then []
    else if NumLen(s) > 0 then IntText(vs[0]) + Patch(s[NumLen(s)..], vs[1..])
    else [s[0]] + Patch(s[1..], vs)
  }

  /** How many values would be read as part of the number they touch: a number written
      right after another one (3-4) that is given a value without a sign. */
  function Merges(s: string, vs: seq<int>, touching: bool): nat
    requires |vs| == |Numbers(s)|
  {
    if s == [] then 0
    else if NumLen(s) > 0 then
      (if touching && vs[0] >= 0 then 1 else 0) + Merges(s[NumLen(s)..], vs[1..], true)
    else Merges(s[1..], vs, false)
  }

  lemma {:induction false} ResidueOfSuffix(s: string)
    requires s != [] && Clean(s)
    ensures NumLen(s) > 0 ==> Clean(s[NumLen(s)..])
    ensures NumLen(s) == 0 ==> Clean(s[1..]) && Separator(s[0])
  {
    if NumLen(s) == 0 {
      assert s[0] in Residue(s);
      assert forall c <- Residue(s[1..]) :: c in Residue(s);
    }
  }

  // ---------------------------------------------------------------- reading back

  lemma {:induction false} DigitsThen(d: string, rest: string)
    requires (forall i :: 0 <= i < |d| ==> Digit(d[i])) && (rest == [] || !Digit(rest[0]))
    ensures Digits(d + rest) == |d|
  {
    if d == [] {
      assert d + rest == rest;
    } else {
      assert (d + rest)[1..] == d[1..] + rest;
      DigitsThen(d[1..], rest);
    }
  }

  /** The sign, if any, and digits of a number. */
  lemma NumberParts(t: string)
    requires IsNumber(t)
    ensures t[0] == '-' ==> |t| > 1
    ensures forall i :: (if t[0] == '-' then 1 else 0) <= i < |t| ==> Digit(t[i])
  {
    var d := if t[0] == '-' then t[1..] else t;
    assert forall i :: 0 <= i < |d| ==> Digit(d[i]);
  }

  lemma NumberThen(t: string, rest: string)
    requires IsNumber(t) && (rest == [] || !Digit(rest[0]))
    ensures NumLen(t + rest) == |t| && (t + rest)[..|t|] == t && (t + rest)[|t|..] == rest
  {
    NumberParts(t);
    if t[0] == '-' {
      DigitsThen(t[1..], rest);
      assert (t + rest)[1..] == t[1..] + rest;
    } else {
      DigitsThen(t, rest);
    }
  }

  /** A number followed by something else is a match of its own. */
  lemma NumberFirst(t: string, rest: string)
    requires IsNumber(t) && (rest == [] || !Digit(rest[0]))
    ensures Numbers(t + rest) == [t] + Numbers(rest) && Residue(t + rest) == Residue(rest)
  {
    NumberThen(t, rest);
    hide NumLen;
  }

  /** A number followed by digits is a longer number. */
  lemma NumberLonger(t: string, d: string)
    requires IsNumber(t) && IsNumber(d) && d[0] != '-'
    ensures IsNumber(t + d)
  {
    NumberParts(t);
    NumberParts(d);
    var u := if t[0] == '-' then t[1..] + d else t + d;
    DigitsThen(u, []);
    assert u + [] == u;
    assert t[0] == '-' ==> (t + d)[1..] == u;
  }

  lemma IntTextNumber(v: int)
    ensures IsNumber(IntText(v)) && ToInt(IntText(v)) == v && (IntText(v)[0] == '-' <==> v < 0)
  {
    var m: nat := if v < 0 then -v else v;
    NatTextDigits(m);
    NatTextValue(m);
    AllDigits(NatText(m));
    assert v < 0 ==> IntText(v)[1..] == NatText(m);
  }

  lemma SeparatorFirst(c: char, rest: string)
    requires Separator(c)
    ensures NumLen([c] + rest) == 0 && Numbers([c] + rest) == Numbers(rest) &&
              Residue([c] + rest) == [c] + Residue(rest)
  {
    assert ([c] + rest)[1..] == rest;
  }

  function Texts(vs: seq<int>): seq<string>
  {
    if vs == [] then [] else [IntText(vs[0])] + Texts(vs[1..])
  }

  lemma {:induction false} TextsLength(vs: seq<int>)
    ensures |Texts(vs)| == |vs|
    ensures forall i :: 0 <= i < |vs| ==> Texts(vs)[i] == IntText(vs[i])
  {
    if vs != [] { TextsLength(vs[1..]); }
  }

  /** Patched text after a number t: as many numbers as values, less those that merge;
      exactly the values if none does; and the bytes outside the numbers stay. */
  lemma {:induction false} PatchedAfter(t: string, s: string, vs: seq<int>)
    requires IsNumber(t) && Clean(s) && |vs| == |Numbers(s)|
    ensures |Numbers(t + Patch(s, vs))| + Merges(s, vs, true) == 1 + |vs|
    ensures Merges(s, vs, true) == 0 ==> Numbers(t + Patch(s, vs)) == [t] + Texts(vs)
    ensures Residue(t + Patch(s, vs)) == Residue(s)
    decreases |s|, 0
  {
    hide NumLen, IntText, Separator;
    if s == [] {
      NumberFirst(t, []);
    } else {
      ResidueOfSuffix(s);
      if NumLen(s) > 0 {
        var x, rest := IntText(vs[0]), Patch(s[NumLen(s)..], vs[1..]);
        IntTextNumber(vs[0]);
        if vs[0] >= 0 {
          NumberLonger(t, x);
          PatchedAfter(t + x, s[NumLen(s)..], vs[1..]);
          assert t + (x + rest) == t + x + rest;
        } else {
          PatchedAfter(x, s[NumLen(s)..], vs[1..]);
          assert !Digit((x + rest)[0]);
          NumberFirst(t, x + rest);
        }
      } else {
        var rest := Patch(s[1..], vs);
        Patched(s[1..], vs);
        SeparatorFirst(s[0], rest);
        SeparatorNotDigit(s[0]);
        NumberFirst(t, [s[0]] + rest);
      }
    }
  }

  lemma SeparatorNotDigit(c: char)
    requires Separator(c)
    ensures !Digit(c)
  {
  }

  lemma {:induction false} Patched(s: string, vs: seq<int>)
    requires Clean(s) && |vs| == |Numbers(s)|
    ensures |Numbers(Patch(s, vs))| + Merges(s, vs, false) == |vs|
    ensures Merges(s, vs, false) == 0 ==> Numbers(Patch(s, vs)) == Texts(vs)
    ensures Residue(Patch(s, vs)) == Residue(s)
    decreases |s|, 1
  {
    hide NumLen, IntText, Separator;
    if s != [] {
      ResidueOfSuffix(s);
      if NumLen(s) > 0 {
        IntTextNumber(vs[0]);
        PatchedAfter(IntText(vs[0]), s[NumLen(s)..], vs[1..]);
      } else {
        Patched(s[1..], vs);
        SeparatorFirst(s[0], Patch(s[1..], vs));
      }
    }
  }

  /** Reading the values back after patching gives the values exactly when no two numbers
      merge.  Separators and line continuations stay where they were in any case. */
  lemma ReadsBackExactlyWhen(s: string, vs: seq<int>)
    requires Clean(s) && |vs| == |Numbers(s)|
    ensures Values(Patch(s, vs)) == vs <==> Merges(s, vs, false) == 0
    ensures Residue(Patch(s, vs)) == Residue(s) && Clean(Patch(s, vs))
  {
    hide Numbers, Patch, Merges, IntText, ToInt, Residue;
    Patched(s, vs);
    if Merges(s, vs, false) == 0 {
      TextsLength(vs);
      forall i | 0 <= i < |vs|
        ensures Values(Patch(s, vs))[i] == vs[i]
      {
        IntTextNumber(vs[i]);
      }
    }
  }

  // ---------------------------------------------------------------- patching again

  lemma {:induction false} PatchAfter(t: string, rest: string, w: int, ws: seq<int>)
    requires IsNumber(t) && (rest == [] || !Digit(rest[0])) && |ws| == |Numbers(rest)|
    ensures |Numbers(t + rest)| == 1 + |ws| && Patch(t + rest, [w] + ws) == IntText(w) + Patch(rest, ws)
  {
    NumberFirst(t, rest);
    NumberThen(t, rest);
    hide NumLen, IntText;
    assert ([w] + ws)[1..] == ws;
  }

  lemma PatchSeparator(c: char, rest: string, ws: seq<int>)
    requires Separator(c) && |ws| == |Numbers(rest)|
    ensures |Numbers([c] + rest)| == |ws| && Patch([c] + rest, ws) == [c] + Patch(rest, ws)
  {
    SeparatorFirst(c, rest);
    assert ([c] + rest)[1..] == rest;
  }

  lemma {:induction false} OverrideAfter(t: string, s: string, vs: seq<int>, w: int, ws: seq<int>)
    requires IsNumber(t) && Clean(s) && |vs| == |ws| == |Numbers(s)| && Merges(s, vs, true) == 0
    ensures |Numbers(t + Patch(s, vs))| == 1 + |ws|
    ensures Patch(t + Patch(s, vs), [w] + ws) == IntText(w) + Patch(s, ws)
    decreases |s|, 0
  {
    hide NumLen, IntText, Separator;
    if s == [] {
      PatchAfter(t, [], w, []);
      assert [w] + ws == [w] + [];
    } else {
      ResidueOfSuffix(s);
      if NumLen(s) > 0 {
        var x := IntText(vs[0]);
        IntTextNumber(vs[0]);
        OverrideAfter(x, s[NumLen(s)..], vs[1..], ws[0], ws[1..]);
        assert ws == [ws[0]] + ws[1..];
        PatchAfter(t, x + Patch(s[NumLen(s)..], vs[1..]), w, ws);
      } else {
        var rest := Patch(s[1..], vs);
        Override(s[1..], vs, ws);
        PatchSeparator(s[0], rest, ws);
        SeparatorNotDigit(s[0]);
        PatchAfter(t, [s[0]] + rest, w, ws);
      }
    }
  }

  /** A second patch overrides the first. */
  lemma {:induction false} Override(s: string, vs: seq<int>, ws: seq<int>)
    requires Clean(s) && |vs| == |ws| == |Numbers(s)| && Merges(s, vs, false) == 0
    ensures |Numbers(Patch(s, vs))| == |ws| && Patch(Patch(s, vs), ws) == Patch(s, ws)
    decreases |s|, 1
  {
    hide NumLen, IntText, Separator;
    if s != [] {
      ResidueOfSuffix(s);
      if NumLen(s) > 0 {
        IntTextNumber(vs[0]);
        OverrideAfter(IntText(vs[0]), s[NumLen(s)..], vs[1..], ws[0], ws[1..]);
        assert ws == [ws[0]] + ws[1..];
      } else {
        Override(s[1..], vs, ws);
        PatchSeparator(s[0], Patch(s[1..], vs), ws);
      }
    }
  }

  // ---------------------------------------------------------------- patching nothing

  /** The shortest spelling of a value is never longer than the one in the source. */
  lemma {:induction false} NatTextShortest(d: string)
    requires d != [] && forall i :: 0 <= i < |d| ==> Digit(d[i])
    ensures |NatText(Decimal(d))| <= |d| && (|NatText(Decimal(d))| == |d| ==> NatText(Decimal(d)) == d)
  {
    var k := |d| - 1;
    var c := DigitValue(d[k]);
    assert Decimal(d) == Decimal(d[..k]) * 10 + c;
    HexDigit(c, d[k]);
    if k == 0 {
      assert d[..0] == [];
    } else {
      NatTextShortest(d[..k]);
      assert d == d[..k] + [d[k]];
      Powers.DivUnique(Decimal(d), 10, Decimal(d[..k]), c);
    }
  }

  lemma HexDigit(v: nat, c: char)
    requires Digit(c) && v == DigitValue(c)
    ensures Hex(v) == c
  {
  }

  lemma NegativeShortest(d: string)
    requires d != [] && forall i :: 0 <= i < |d| ==> Digit(d[i])
    ensures var x := IntText(-(Decimal(d) as int));
            |x| <= 1 + |d| && (|x| == 1 + |d| ==> x == "-" + d)
  {
    NatTextShortest(d);
    assert |NatText(0)| == 1;
    hide NatText, Decimal;
  }

  lemma IntTextShortest(t: string)
    requires IsNumber(t)
    ensures |IntText(ToInt(t))| <= |t| && (|IntText(ToInt(t))| == |t| ==> IntText(ToInt(t)) == t)
  {
    NumberParts(t);
    hide IsNumber, IntText, NatText, Decimal;
    if t[0] == '-' {
      NegativeShortest(t[1..]);
      assert t == "-" + t[1..];
    } else {
      NatTextShortest(t);
      assert IntText(ToInt(t)) == NatText(ToInt(t)) by { PlainInt(ToInt(t)); }
    }
  }

  lemma PlainInt(n: nat)
    ensures IntText(n) == NatText(n)
  {
  }

  /** No zero in front of other digits, and no -0. */
  predicate Plain(t: string)
    requires IsNumber(t)
  {
    if t[0] == '-' then t[1] != '0' else t[0] == '0' ==> |t| == 1
  }

  /** Every number is spelled plainly. */
  ghost predicate Canonical(s: string)
  {
    forall t <- Numbers(s) :: IsNumber(t) && Plain(t)
  }

  lemma {:induction false} NatTextPlain(n: nat)
    ensures NatText(n) != [] && (NatText(n)[0] == '0' <==> n == 0) && (n == 0 ==> |NatText(n)| == 1)
  {
    if n >= 10 { NatTextPlain(n / 10); }
  }

  lemma {:induction false} PlainNatText(d: string)
    requires d != [] && (forall i :: 0 <= i < |d| ==> Digit(d[i])) && (d[0] == '0' ==> |d| == 1)
    ensures NatText(Decimal(d)) == d && (d[0] != '0' ==> Decimal(d) > 0)
  {
    var k := |d| - 1;
    var c := DigitValue(d[k]);
    assert Decimal(d) == Decimal(d[..k]) * 10 + c;
    HexDigit(c, d[k]);
    if k == 0 {
      assert d[..0] == [];
    } else {
      PlainNatText(d[..k]);
      assert d == d[..k] + [d[k]];
      Powers.DivUnique(Decimal(d), 10, Decimal(d[..k]), c);
    }
  }

  lemma PlainDigits(d: string)
    requires d != [] && forall i :: 0 <= i < |d| ==> Digit(d[i])
    ensures (d[0] == '0' ==> |d| == 1) <==> NatText(Decimal(d)) == d
    ensures d[0] != '0' <==> NatText(Decimal(d)) == d && Decimal(d) > 0
  {
    NatTextPlain(Decimal(d));
    if d[0] == '0' ==> |d| == 1 { PlainNatText(d); }
  }

  /** That is str()'s own spelling. */
  lemma PlainExactlyWhen(t: string)
    requires IsNumber(t)
    ensures Plain(t) <==> IntText(ToInt(t)) == t
  {
    NumberParts(t);
    if t[0] == '-' {
      PlainDigits(t[1..]);
      Negative(t, Decimal(t[1..]));
    } else {
      PlainDigits(t);
    }
  }

  lemma Negative(t: string, n: nat)
    requires t != [] && t[0] == '-'
    ensures IntText(-(n as int)) == t <==> NatText(n) == t[1..] && n > 0
  {
    NatTextPlain(0);
    hide NatText;
    assert t == "-" + t[1..];
    assert ("-" + NatText(n))[1..] == NatText(n);
  }

  /** Every number is its own text. */
  ghost predicate Stable(s: string)
  {
    forall t <- Numbers(s) :: IsNumber(t) && IntText(ToInt(t)) == t
  }

  lemma CanonicalExactlyWhen(s: string)
    ensures Canonical(s) <==> Stable(s)
  {
    hide Plain, IntText, ToInt;
    NumbersAreNumbers(s);
    forall t | t in Numbers(s)
      ensures Plain(t) <==> IntText(ToInt(t)) == t
    {
      PlainExactlyWhen(t);
    }
  }

  lemma ValuesOfSuffix(s: string)
    requires s != []
    ensures NumLen(s) > 0 ==> IsNumber(s[..NumLen(s)]) && Values(s) == [ToInt(s[..NumLen(s)])] + Values(s[NumLen(s)..])
    ensures NumLen(s) == 0 ==> Values(s) == Values(s[1..])
  {
    hide ToInt, NumLen;
    if NumLen(s) > 0 { MatchWhole(s); }
  }

  lemma {:induction false} PatchShorter(s: string)
    ensures |Patch(s, Values(s))| <= |s|
    ensures |Patch(s, Values(s))| == |s| ==> Stable(s)
    ensures Stable(s) ==> Patch(s, Values(s)) == s
    decreases |s|
  {
    hide ToInt, NumLen, Values, IntText;
    if s != [] {
      ValuesOfSuffix(s);
      if NumLen(s) > 0 {
        var t, rest := s[..NumLen(s)], s[NumLen(s)..];
        PatchShorter(rest);
        IntTextShortest(t);
        assert s == t + rest;
        assert Numbers(s) == [t] + Numbers(rest);
        assert Values(s)[1..] == Values(rest);
        assert forall x <- Numbers(s) :: x == t || x in Numbers(rest);
        assert t in Numbers(s) && forall x <- Numbers(rest) :: x in Numbers(s);
      } else {
        PatchShorter(s[1..]);
        assert s == [s[0]] + s[1..];
      }
    }
  }

  /** Patching with the current values is literally the identity exactly when every
      number is spelled canonically. */
  lemma IdentityExactlyWhen(s: string)
    ensures Patch(s, Values(s)) == s <==> Stable(s)
  {
    hide Patch, Canonical, Stable;
    CanonicalExactlyWhen(s);
    PatchShorter(s);
  }

  lemma OneDigit(t: string)
    requires |t| == 1 && Digit(t[0])
    ensures IsNumber(t) && NumLen(t) == 1 && Numbers(t) == [t] && ToInt(t) == DigitValue(t[0]) &&
              Decimal(t) == DigitValue(t[0])
  {
    assert t[..0] == [] && t[..1] == t && t[1..] == [];
    assert Decimal([]) == 0 && Decimal(t) == DigitValue(t[0]);
    assert Digits(t) == 1 && t[0] != '-';
  }

  /** For instance: two numbers that touch become one, ... */
  lemma TouchingNumbersMerge()
    ensures Clean("3-4") && Numbers("3-4") == ["3", "-4"] && Values("3-4") == [3, -4]
    ensures Patch("3-4", [3, 4]) == "34" && Values("34") == [34]
  {
    assert NumLen("3-4") == 1 && NumLen("-4") == 2 && NumLen("34") == 2;
    assert "3-4"[..1] == "3" && "3-4"[1..] == "-4" && "-4"[2..] == "" && "-4"[..2] == "-4" && "-4"[1..] == "4";
    assert "34"[..2] == "34" && "34"[2..] == "" && "34"[..1] == "3";
    OneDigit("3");
    OneDigit("4");
    assert Decimal("34") == 34;
    hide NumLen, Decimal;
    assert Numbers("-4") == ["-4"] && Numbers("34") == ["34"];
    assert IntText(3) == "3" && IntText(4) == "4";
    assert [3, 4][1..] == [4];
    hide IntText;
    assert Patch("-4", [4]) == "4";
  }

  /** ... and zeros in front go. */
  lemma LeadingZerosGo()
    ensures Patch(" 07", Values(" 07")) == " 7"
  {
    assert " 07"[1..] == "07" && "07"[..2] == "07" && "07"[2..] == "";
    assert NumLen("07") == 2 && Numbers("07") == ["07"];
    assert "07"[..1] == "0" && "0"[..0] == "";
    assert Decimal("0") == 0 && Decimal("07") == 7 && ToInt("07") == 7;
    assert Values("07") == [7] && Patch("07", [7]) == "7";
  }
}
