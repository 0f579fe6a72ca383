/**
 Reading back what dump wrote gives the value, and a text put together from pieces that
 read as values reads as the object of these values: this is what lets the gateway splice
 the worker's own bytes into its response.
 */
module JsonRoundTrip {
  import opened Wrappers
  import opened Json
  import opened JsonLocality
  import opened JsonMaps

  // ---------------------------------------------------------------- strings

  lemma HexInverse(d: nat)
    requires d < 16
    ensures HexValue(Hex(d)) == Some(d)
  {
  }

  lemma EscapeReads(c: char, rest: string)
    requires EscapeChar(c)[0] == '\\'
    ensures ReadEscape(EscapeChar(c)[1..] + rest) == Ok([c], |EscapeChar(c)| - 1)
  {
    var u := EscapeChar(c)[1..] + rest;
    if |EscapeChar(c)| > 2 {
      HexInverse(c as nat / 16);
      HexInverse(c as nat % 16);
      HexInverse(0);
      assert u[1..][..4] == EscapeChar(c)[2..];
      assert u[1..][0] == u[1] && u[1..][1] == u[2] && u[1..][2] == u[3] && u[1..][3] == u[4];
      assert ReadHex(u[1..]) == Ok(c as nat, 4);
    }
  }

  lemma CharReads(c: char, rest: string)
    ensures ReadBody(EscapeChar(c) + rest) == Prepend([c], |EscapeChar(c)|, ReadBody(rest))
  {
    var u, e := EscapeChar(c) + rest, EscapeChar(c);
    if e[0] == '\\' {
      EscapeReads(c, rest);
      assert u[1..] == e[1..] + rest;
      assert u[|e|..] == rest;
    } else {
      assert u[1..] == rest;
    }
  }

  lemma {:induction false} BodyReads(s: string, rest: string)
    ensures ReadBody(EscapeBody(s) + "\"" + rest) == Ok(s, |EscapeBody(s)| + 1)
  {
    if s == [] {
      assert EscapeBody(s) + "\"" + rest == "\"" + rest;
    } else {
      var u := EscapeBody(s[1..]) + "\"" + rest;
      assert EscapeBody(s) + "\"" + rest == EscapeChar(s[0]) + u;
      CharReads(s[0], u);
      BodyReads(s[1..], rest);
      assert [s[0]] + s[1..] == s;
    }
  }

  /** Every string of bytes survives escaping. */
  lemma StringReads(s: string, rest: string)
    ensures ReadString(Escape(s) + rest) == Ok(s, |Escape(s)|)
  {
    hide ReadBody, EscapeBody;
    BodyReads(s, rest);
    assert (Escape(s) + rest)[1..] == EscapeBody(s) + "\"" + rest;
  }

  lemma KeyReads(key: string, rest: string)
    ensures ReadKey(Entry(key, rest)) == Ok(key, |Escape(key)| + 1)
  {
    hide ReadString, EscapeBody;
    var u := Entry(key, rest);
    assert u == Escape(key) + (":" + rest);
    StringReads(key, ":" + rest);
    assert u[0..] == u && u[|Escape(key)|..] == ":" + rest;
    assert Spaces(u) == 0 && Spaces(":" + rest) == 0;
    hide Spaces;
  }

  // ---------------------------------------------------------------- numbers

  lemma TokenReads(s: string, v: Value)
    requires s != [] && !Space(s[0]) && ReadToken(s) == Ok(v, |s|)
    ensures Reads(s, v)
  {
    hide ReadToken;
    assert Spaces(s) == 0 && s[0..] == s;
  }

  lemma {:induction false} NatTextDigits(n: nat)
    ensures NatText(n) != [] && forall i :: 0 <= i < |NatText(n)| ==> Digit(NatText(n)[i])
  {
    if n >= 10 { NatTextDigits(n / 10); }
  }

  lemma {:induction false} NatTextValue(n: nat)
    ensures forall i :: 0 <= i < |NatText(n)| ==> Digit(NatText(n)[i])
    ensures Decimal(NatText(n)) == n
  {
    NatTextDigits(n);
    if n < 10 {
      assert NatText(n)[..0] == [];
    } else {
      NatTextValue(n / 10);
      assert NatText(n)[..|NatText(n)| - 1] == NatText(n / 10);
    }
  }

  lemma {:induction false} AllDigits(s: string)
    requires forall i :: 0 <= i < |s| ==> Digit(s[i])
    ensures Digits(s) == |s|
  {
    if s != [] { AllDigits(s[1..]); }
  }

  lemma WholeRun(s: string)
    requires forall i :: 0 <= i < |s| ==> NumChar(s[i])
    ensures s[..Run(s)] == s
  {
    RunIs(s, |s|);
  }

  lemma WholeNumber(s: string)
    requires NumberHead(s) == |s| && |s| > Sign(s)
    ensures NumberPrefix(s) == |s|
  {
    assert s[|s|..] == [];
  }

  /** An integer's spelling is a sign and digits, whose value is the integer. */
  lemma IntTextValue(n: int)
    requires -BIGGEST <= n <= BIGGEST
    ensures var s := IntText(n);
            && s != [] && NumberHead(s) == |s| > Sign(s) && NumberValue(s) == Num(n)
            && (s[0] == '-' || Digit(s[0])) && forall i :: 0 <= i < |s| ==> NumChar(s[i])
  {
    var m: nat := if n < 0 then -n else n;
    var s, t := IntText(n), NatText(m);
    NatTextDigits(m);
    NatTextValue(m);
    AllDigits(t);
    assert s[Sign(s)..] == t;
  }

  lemma IntReads(n: int)
    requires -BIGGEST <= n <= BIGGEST
    ensures Reads(IntText(n), Num(n))
  {
    hide NumberPrefix, NumberValue, NumberHead, Run, IntText, Reads;
    var s := IntText(n);
    IntTextValue(n);
    WholeRun(s);
    WholeNumber(s);
    assert s[..|s|] == s;
    assert ReadToken(s) == Ok(Num(n), |s|);
    TokenReads(s, Num(n));
  }

  // ---------------------------------------------------------------- lists

  /** The first of several joined texts and what follows it. */
  lemma JoinSplit(texts: seq<string>, tail: string)
    requires texts != []
    ensures Join(texts) + tail == texts[0] + (if |texts| == 1 then tail else "," + (Join(texts[1..]) + tail))
  {
  }

  lemma ElementReads(x: string, v: Value, rest: string)
    requires Reads(x, v) && rest != [] && rest[0] in ",]}"
    ensures ReadElement(x + rest) == Ok(v, |x|)
  {
    ReadsBefore(x, v, rest);
    assert (x + rest)[|x|..] == rest;
  }

  lemma ItemReads(x: string, v: Value, acc: seq<Value>, rest: string, more: string)
    requires Reads(x, v) && rest != [] && (rest[0] == ']' || rest == "," + more)
    ensures ReadItems(x + rest, acc) ==
            if rest[0] == ']' then Ok(Arr(acc + [v]), |x| + 1) else Skip(|x| + 1, ReadItems(more, acc + [v]))
  {
    hide ReadElement, Reads, ReadItems;
    ElementReads(x, v, rest);
    assert x + rest != [];
    if rest[0] != ']' { assert (x + rest)[|x| + 1..] == more; }
    ItemsUnfold(x + rest, acc, v, |x|);
  }

  lemma {:induction false} ItemsRead(texts: seq<string>, values: seq<Value>, acc: seq<Value>, tail: string)
    requires |texts| == |values| > 0 && tail != [] && tail[0] == ']'
    requires forall i :: 0 <= i < |texts| ==> Reads(texts[i], values[i])
    ensures ReadItems(Join(texts) + tail, acc) == Ok(Arr(acc + values), |Join(texts)| + 1)
    decreases |texts|
  {
    hide ReadItems, Reads;
    JoinSplit(texts, tail);
    if |texts| == 1 {
      ItemReads(texts[0], values[0], acc, tail, []);
      assert values == [values[0]];
    } else {
      var more := Join(texts[1..]) + tail;
      ItemsRead(texts[1..], values[1..], acc + [values[0]], tail);
      ItemReads(texts[0], values[0], acc, "," + more, more);
      assert acc + [values[0]] + values[1..] == acc + values;
    }
  }

  ghost predicate EntriesRead(entries: seq<string>, texts: seq<string>, ms: seq<Member<Value>>)
  {
    && |entries| == |texts| == |ms|
    && (forall i :: 0 <= i < |ms| ==> entries[i] == Entry(ms[i].key, texts[i]) && Reads(texts[i], ms[i].value))
  }

  lemma {:induction false} MembersRead(entries: seq<string>, texts: seq<string>, ms: seq<Member<Value>>,
      acc: seq<Member<Value>>, tail: string)
    requires EntriesRead(entries, texts, ms) && |ms| > 0 && tail != [] && tail[0] == '}'
    ensures ReadMembers(Join(entries) + tail, acc) == Ok(Obj(InsertAll(acc, ms)), |Join(entries)| + 1)
    decreases |ms|
  {
    hide ReadElement, ReadRest, ReadKey, Reads, Insert;
    var m, s := ms[0], Join(entries) + tail;
    var acc' := Insert(acc, m.key, m.value);
    JoinSplit(entries, tail);
    var rest := if |ms| == 1 then tail else "," + (Join(entries[1..]) + tail);
    assert s == Entry(m.key, texts[0] + rest);
    KeyReads(m.key, texts[0] + rest);
    var a := |Escape(m.key)| + 1;
    assert s[a..] == texts[0] + rest;
    if |ms| > 1 { MembersRead(entries[1..], texts[1..], ms[1..], acc', tail); }
    RestReads(texts[0], m, acc, rest, if |ms| == 1 then [] else Join(entries[1..]) + tail);
    assert ms[1..] == [] || |ms| > 1;
  }

  lemma RestReads(x: string, m: Member<Value>, acc: seq<Member<Value>>, rest: string, more: string)
    requires Reads(x, m.value) && rest != [] && (rest[0] == '}' || rest == "," + more)
    ensures ReadRest(x + rest, acc, m.key) ==
            var acc' := Insert(acc, m.key, m.value);
            if rest[0] == '}' then Ok(Obj(acc'), |x| + 1) else Skip(|x| + 1, ReadMembers(more, acc'))
  {
    hide ReadElement, ReadMembers, Reads, Insert;
    ElementReads(x, m.value, rest);
    if rest[0] != '}' { assert (x + rest)[|x| + 1..] == more; }
  }

  lemma JoinStart(texts: seq<string>)
    requires texts != [] && texts[0] != []
    ensures Join(texts) != [] && Join(texts)[0] == texts[0][0]
  {
  }

  lemma StartsValue(x: string, v: Value)
    requires Reads(x, v)
    ensures x != [] && x[0] != ']' && !Space(x[0])
  {
    hide ReadMembers, ReadItems, ReadString, ReadNumber;
    assert Spaces(x) == 0 && x[0..] == x;
    assert ReadToken(x).Ok?;
  }

  /** Brackets around texts that read as values. */
  lemma ArrayReads(texts: seq<string>, values: seq<Value>)
    requires |texts| == |values|
    requires forall i :: 0 <= i < |texts| ==> Reads(texts[i], values[i])
    ensures Reads("[" + Join(texts) + "]", Arr(values))
  {
    hide ReadItems, ReadMembers, Reads;
    var s, u := "[" + Join(texts) + "]", Join(texts) + "]";
    if texts == [] {
      assert s == "[]" && s[1..] == "]";
    } else {
      StartsValue(texts[0], values[0]);
      JoinStart(texts);
      assert s[1..] == u && Spaces(u) == 0;
      ItemsRead(texts, values, [], "]");
      assert [] + values == values;
    }
    assert ReadToken(s) == Ok(Arr(values), |s|);
    TokenReads(s, Arr(values));
  }

  /** Braces around keys with texts that read as values. */
  lemma ObjectReads(entries: seq<string>, texts: seq<string>, ms: seq<Member<Value>>)
    requires EntriesRead(entries, texts, ms)
    ensures Reads("{" + Join(entries) + "}", Obj(InsertAll([], ms)))
  {
    hide ReadItems, ReadMembers, Reads;
    var s, u := "{" + Join(entries) + "}", Join(entries) + "}";
    if ms == [] {
      assert s == "{}" && s[1..] == "}";
    } else {
      JoinStart(entries);
      assert s[1..] == u && Spaces(u) == 0;
      MembersRead(entries, texts, ms, [], "}");
    }
    assert ReadToken(s) == Ok(Obj(InsertAll([], ms)), |s|);
    TokenReads(s, Obj(InsertAll([], ms)));
  }

  // ---------------------------------------------------------------- the round trip

  /** What dump writes for v reads as v, to the last byte. */
  lemma {:induction false} DumpReads(v: Value)
    requires Printable(v)
    ensures Reads(Dump(v), v)
  {
    match v
    case Null | Bool(_) => LiteralReads(v);
    case Num(n) => IntReads(n);
    case Str(s) => StrReads(s);
    case Arr(items) =>
      forall i | 0 <= i < |items|
        ensures Reads(ItemTexts(items)[i], items[i])
      {
        DumpReads(items[i]);
      }
      ArrayReads(ItemTexts(items), items);
    case Obj(ms) =>
      forall i | 0 <= i < |ms|
        ensures Reads(Dump(ms[i].value), ms[i].value)
      {
        DumpReads(ms[i].value);
      }
      var texts := seq(|ms|, i requires 0 <= i < |ms| => Dump(ms[i].value));
      ObjectReads(MemberTexts(ms), texts, ms);
      assert [] + ms == ms;
      InsertAllSorted([], ms);
  }

  lemma LiteralReads(v: Value)
    requires v.Null? || v.Bool?
    ensures Reads(Dump(v), v)
  {
    assert Dump(v)[0..] == Dump(v);
  }

  lemma StrReads(s: string)
    ensures Reads(Escape(s), Str(s))
  {
    StringReads(s, []);
    assert Escape(s) + [] == Escape(s) && Escape(s)[0..] == Escape(s);
  }

  lemma WholeText(text: string, v: Value)
    requires Reads(text, v)
    ensures Parse(text) == Ok(v, |text|)
  {
    hide ReadValue;
    assert text[|text|..] == [];
  }

  /** parse(dump(v)) == v for every nested value whose numbers are integers within 9e15. */
  lemma ParseDump(v: Value)
    requires Printable(v)
    ensures Parse(Dump(v)) == Ok(v, |Dump(v)|)
  {
    DumpReads(v);
    WholeText(Dump(v), v);
  }
}
