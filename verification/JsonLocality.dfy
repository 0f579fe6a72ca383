/**
 Reading a JSON value depends only on the bytes it consumes: what was read can be cut
 out, or put before any other text that does not continue a number, and reads the same.
 */
module JsonLocality {
  import opened Json

  /** s and t start with the same n bytes. */
  ghost predicate Agree(s: string, t: string, n: nat)
  {
    n <= |s| && n <= |t| && s[..n] == t[..n]
  }

  ghost predicate Delimited(s: string, n: nat)
  {
    n < |s| ==> !NumChar(s[n])
  }

  lemma AgreeDrop(s: string, t: string, n: nat, k: nat)
    requires Agree(s, t, n) && k <= n
    ensures Agree(s[k..], t[k..], n - k)
  {
    assert s[k..][..n - k] == s[..n][k..];
    assert t[k..][..n - k] == t[..n][k..];
  }

  lemma AgreeAt(s: string, t: string, n: nat, k: nat)
    requires Agree(s, t, n) && k < n
    ensures s[k] == t[k]
  {
    assert s[..n][k] == t[..n][k];
  }

  lemma SpacesLocal(s: string, t: string, n: nat)
    requires Agree(s, t, n) && Spaces(s) < n
    ensures Spaces(t) == Spaces(s)
  {
    var w, w' := Spaces(s), Spaces(t);
    AgreeAt(s, t, n, w);
    if w' < w { AgreeAt(s, t, n, w'); }
  }

  // ---------------------------------------------------------------- strings

  lemma HexLocal(s: string, t: string, n: nat)
    requires ReadHex(s).Ok? && Agree(s, t, n) && n >= 4
    ensures ReadHex(t) == ReadHex(s)
  {
    AgreeAt(s, t, n, 0);
    AgreeAt(s, t, n, 1);
    AgreeAt(s, t, n, 2);
    AgreeAt(s, t, n, 3);
  }

  lemma EscapeLocal(s: string, t: string, n: nat)
    requires ReadEscape(s).Ok? && Agree(s, t, n) && ReadEscape(s).n <= n
    ensures ReadEscape(t) == ReadEscape(s)
  {
    AgreeAt(s, t, n, 0);
    if s[0] == 'u' {
      AgreeDrop(s, t, n, 1);
      HexLocal(s[1..], t[1..], n - 1);
    }
  }

  lemma {:induction false} BodyLocal(s: string, t: string, n: nat)
    requires ReadBody(s).Ok? && Agree(s, t, n) && ReadBody(s).n <= n
    ensures ReadBody(t) == ReadBody(s)
    decreases |s|
  {
    AgreeAt(s, t, n, 0);
    if s[0] == '\\' {
      AgreeDrop(s, t, n, 1);
      EscapeLocal(s[1..], t[1..], n - 1);
      var k := 1 + ReadEscape(s[1..]).n;
      AgreeDrop(s, t, n, k);
      BodyLocal(s[k..], t[k..], n - k);
    } else if s[0] != '"' {
      AgreeDrop(s, t, n, 1);
      BodyLocal(s[1..], t[1..], n - 1);
    }
  }

  lemma StringLocal(s: string, t: string, n: nat)
    requires ReadString(s).Ok? && Agree(s, t, n) && ReadString(s).n <= n
    ensures ReadString(t) == ReadString(s)
  {
    AgreeAt(s, t, n, 0);
    AgreeDrop(s, t, n, 1);
    BodyLocal(s[1..], t[1..], n - 1);
  }

  lemma KeyLocal(s: string, t: string, n: nat)
    requires ReadKey(s).Ok? && Agree(s, t, n) && ReadKey(s).n <= n
    ensures ReadKey(t) == ReadKey(s)
  {
    hide ReadString;
    SpacesLocal(s, t, n);
    var w := Spaces(s);
    AgreeDrop(s, t, n, w);
    StringLocal(s[w..], t[w..], n - w);
    var k := w + ReadString(s[w..]).n;
    AgreeDrop(s, t, n, k);
    SpacesLocal(s[k..], t[k..], n - k);
    AgreeAt(s, t, n, ReadKey(s).n - 1);
  }

  // ---------------------------------------------------------------- numbers

  lemma {:induction false} DigitsTake(u: string, m: nat)
    requires Digits(u) <= m <= |u|
    ensures Digits(u[..m]) == Digits(u)
  {
    if u != [] && Digit(u[0]) {
      assert u[..m][1..] == u[1..][..m - 1];
      DigitsTake(u[1..], m - 1);
    }
  }

  lemma FractionTake(u: string, m: nat)
    requires Fraction(u) <= m <= |u|
    ensures Fraction(u[..m]) == Fraction(u)
  {
    if u != [] && u[0] == '.' {
      DigitsTake(u[1..], m - 1);
      assert u[..m][1..] == u[1..][..m - 1];
    }
  }

  lemma ExponentTake(u: string)
    ensures Exponent(u[..Exponent(u)]) == Exponent(u)
  {
    var m := Exponent(u);
    if m > 0 {
      var g := 1 + Sign(u[1..]);
      assert u[..m][1..] == u[1..][..m - 1];
      assert Sign(u[..m][1..]) == g - 1;
      assert u[..m][g..] == u[g..][..m - g];
      DigitsTake(u[g..], m - g);
    }
  }

  lemma HeadTake(u: string, n: nat)
    requires NumberHead(u) <= n <= |u|
    ensures n > 0 ==> Sign(u[..n]) == Sign(u) && NumberHead(u[..n]) == NumberHead(u)
  {
    var a := Sign(u);
    assert u[..n][a..] == u[a..][..n - a];
    DigitsTake(u[a..], n - a);
  }

  lemma TailTake(u: string)
    ensures NumberTail(u[..NumberTail(u)]) == NumberTail(u)
    ensures Fraction(u[..NumberTail(u)]) == Fraction(u)
  {
    var f, n := Fraction(u), NumberTail(u);
    FractionTake(u, n);
    assert u[..n][f..] == u[f..][..n - f];
    ExponentTake(u[f..]);
  }

  /** The prefix strtod takes is a number it takes whole. */
  lemma NumberPrefixStable(u: string)
    ensures NumberPrefix(u[..NumberPrefix(u)]) == NumberPrefix(u)
  {
    hide Digits, Fraction, Exponent, NumberHead, NumberTail;
    var n := NumberPrefix(u);
    if n > 0 {
      var h := NumberHead(u);
      HeadTake(u, n);
      assert u[..n][h..] == u[h..][..n - h];
      TailTake(u[h..]);
    }
  }

  lemma RunIs(t: string, n: nat)
    requires n <= |t| && Delimited(t, n) && forall i :: 0 <= i < n ==> NumChar(t[i])
    ensures Run(t) == n
  {
  }

  lemma NumberLocal(s: string, t: string, n: nat)
    requires ReadNumber(s).n == n && Agree(s, t, n) && Delimited(t, n)
    ensures ReadNumber(t) == ReadNumber(s)
  {
    var token := s[..Run(s)];
    forall i | 0 <= i < n
      ensures NumChar(t[i])
    {
      AgreeAt(s, t, n, i);
    }
    RunIs(t, n);
    assert t[..n] == token[..n];
    NumberPrefixStable(token);
    assert token[..n][..n] == token[..n];
  }

  // ---------------------------------------------------------------- values

  /** Only a lone sign can be read as a number without consuming it; no list goes on there. */
  lemma NoProgress(s: string)
    requires ReadToken(s).Ok? && ReadToken(s).n == 0
    ensures s != [] && NumChar(s[0])
  {
  }

  lemma LiteralLocal(s: string, t: string, word: string, v: Value, n: nat)
    requires ReadLiteral(s, word, v).Ok? && Agree(s, t, n) && |word| <= n
    ensures ReadLiteral(t, word, v) == ReadLiteral(s, word, v)
  {
    assert t[..|word|] == t[..n][..|word|] == s[..n][..|word|] == s[..|word|];
  }

  /** A value read from s, with its n > 0 bytes, reads the same from any text that
      starts with these bytes and does not go on with a byte of a number. */
  lemma {:induction false} ValueLocal(s: string, t: string, n: nat)
    requires ReadValue(s).Ok? && ReadValue(s).n == n > Spaces(s)
    requires Agree(s, t, n) && Delimited(t, n)
    ensures ReadValue(t) == ReadValue(s)
    decreases |s|, 1
  {
    hide ReadToken, Spaces;
    SpacesLocal(s, t, n);
    var w := Spaces(s);
    AgreeDrop(s, t, n, w);
    TokenLocal(s[w..], t[w..], n - w);
  }

  lemma {:induction false} TokenLocal(s: string, t: string, n: nat)
    requires ReadToken(s).Ok? && ReadToken(s).n == n > 0
    requires Agree(s, t, n) && Delimited(t, n)
    ensures ReadToken(t) == ReadToken(s)
    decreases |s|, 0
  {
    AgreeAt(s, t, n, 0);
    if s[0] == '{' {
      ObjectLocal(s, t, n);
    } else if s[0] == '[' {
      ArrayLocal(s, t, n);
    } else if s[0] == '"' {
      StringLocal(s, t, n);
    } else if s[0] == 't' {
      LiteralLocal(s, t, "true", Bool(true), n);
    } else if s[0] == 'f' {
      LiteralLocal(s, t, "false", Bool(false), n);
    } else if s[0] == 'n' {
      LiteralLocal(s, t, "null", Null, n);
    } else {
      NumberLocal(s, t, n);
    }
  }

  /** The opening bracket and the white space after it. */
  lemma OpeningLocal(s: string, t: string, n: nat)
    requires s != [] && 1 + Spaces(s[1..]) < n && Agree(s, t, n)
    ensures var k := 1 + Spaces(s[1..]);
            s[0] == t[0] && s[k] == t[k] && 1 + Spaces(t[1..]) == k && Agree(s[k..], t[k..], n - k)
  {
    var k := 1 + Spaces(s[1..]);
    AgreeAt(s, t, n, 0);
    AgreeAt(s, t, n, k);
    AgreeDrop(s, t, n, 1);
    SpacesLocal(s[1..], t[1..], n - 1);
    AgreeDrop(s, t, n, k);
  }

  lemma {:induction false} ObjectLocal(s: string, t: string, n: nat)
    requires s != [] && s[0] == '{' && ReadToken(s).Ok? && ReadToken(s).n == n && Agree(s, t, n)
    ensures ReadToken(t) == ReadToken(s)
    decreases |s|, 0, 0
  {
    hide ReadMembers, Spaces, ReadItems, ReadString, ReadNumber;
    OpeningLocal(s, t, n);
    var k := 1 + Spaces(s[1..]);
    if s[k] != '}' { MembersLocal(s[k..], t[k..], n - k, []); }
  }

  lemma {:induction false} ArrayLocal(s: string, t: string, n: nat)
    requires s != [] && s[0] == '[' && ReadToken(s).Ok? && ReadToken(s).n == n && Agree(s, t, n)
    ensures ReadToken(t) == ReadToken(s)
    decreases |s|, 0, 0
  {
    hide ReadMembers, Spaces, ReadItems, ReadString, ReadNumber;
    OpeningLocal(s, t, n);
    var k := 1 + Spaces(s[1..]);
    if s[k] != ']' { ItemsLocal(s[k..], t[k..], n - k, []); }
  }

  /** The byte after an element of a list is not one of a number, and the element took some. */
  lemma ElementDelimited(s: string, t: string, n: nat)
    requires ReadElement(s).Ok? && ReadElement(s).n < n && Agree(s, t, n)
    requires s[ReadElement(s).n] in ",]}"
    ensures ReadValue(s).n > Spaces(s) && Delimited(t, ReadValue(s).n)
  {
    var m := ReadValue(s).n;
    AgreeAt(s, t, n, m);
    if m < ReadElement(s).n { assert Space(s[m..][0]); }
    if m == Spaces(s) { NoProgress(s[m..]); }
  }

  lemma {:induction false} ElementLocal(s: string, t: string, n: nat)
    requires ReadElement(s).Ok? && ReadElement(s).n < n && Agree(s, t, n)
    requires s[ReadElement(s).n] in ",]}"
    ensures ReadElement(t) == ReadElement(s)
    decreases |s|, 2
  {
    hide ReadValue, Spaces;
    var m := ReadValue(s).n;
    ElementDelimited(s, t, n);
    assert Agree(s, t, m) by { assert s[..m] == s[..n][..m] == t[..n][..m] == t[..m]; }
    ValueLocal(s, t, m);
    AgreeDrop(s, t, n, m);
    SpacesLocal(s[m..], t[m..], n - m);
  }

  lemma {:induction false} ItemsLocal(s: string, t: string, n: nat, acc: seq<Value>)
    requires ReadItems(s, acc).Ok? && ReadItems(s, acc).n == n && Agree(s, t, n)
    ensures ReadItems(t, acc) == ReadItems(s, acc)
    decreases |s|, 3
  {
    hide ReadElement;
    ElementLocal(s, t, n);
    var k := ReadElement(s).n;
    AgreeAt(s, t, n, k);
    if s[k] == ',' {
      AgreeDrop(s, t, n, k + 1);
      ItemsLocal(s[k + 1..], t[k + 1..], n - k - 1, acc + [ReadElement(s).value]);
    }
  }

  lemma {:induction false} MembersLocal(s: string, t: string, n: nat, acc: seq<Member<Value>>)
    requires ReadMembers(s, acc).Ok? && ReadMembers(s, acc).n == n && Agree(s, t, n)
    ensures ReadMembers(t, acc) == ReadMembers(s, acc)
    decreases |s|, 3
  {
    hide ReadRest, ReadKey;
    KeyLocal(s, t, n);
    var a := ReadKey(s).n;
    AgreeDrop(s, t, n, a);
    RestLocal(s[a..], t[a..], n - a, acc, ReadKey(s).value);
  }

  lemma {:induction false} RestLocal(s: string, t: string, n: nat, acc: seq<Member<Value>>, key: string)
    requires ReadRest(s, acc, key).Ok? && ReadRest(s, acc, key).n == n && Agree(s, t, n)
    ensures ReadRest(t, acc, key) == ReadRest(s, acc, key)
    decreases |s|, 4
  {
    hide ReadElement, ReadMembers;
    ElementLocal(s, t, n);
    var k := ReadElement(s).n;
    AgreeAt(s, t, n, k);
    if s[k] == ',' {
      AgreeDrop(s, t, n, k + 1);
      MembersLocal(s[k + 1..], t[k + 1..], n - k - 1, Insert(acc, key, ReadElement(s).value));
    }
  }

  /** text is one value v, read to its last byte. */
  ghost predicate Reads(text: string, v: Value)
  {
    text != [] && !Space(text[0]) && ReadValue(text) == Ok(v, |text|)
  }

  /** A text that reads as v reads as v before any text that does not continue a number. */
  lemma ReadsBefore(x: string, v: Value, rest: string)
    requires Reads(x, v) && Delimited(rest, 0)
    ensures ReadValue(x + rest) == Ok(v, |x|)
  {
    assert (x + rest)[..|x|] == x[..|x|];
    ValueLocal(x, x + rest, |x|);
  }

  /** The bytes consumed, without the white space before them, read as the same value. */
  lemma CutOut(s: string)
    requires ReadValue(s).Ok? && ReadValue(s).n > Spaces(s)
    ensures Reads(s[Spaces(s)..ReadValue(s).n], ReadValue(s).value)
  {
    var w, n := Spaces(s), ReadValue(s).n;
    var u := s[w..];
    assert Spaces(u) == 0;
    assert u[0..] == u;
    var x := s[w..n];
    assert x == u[..n - w] && u[..n - w] == x[..n - w];
    ValueLocal(u, x, n - w);
  }
}
