/**
 The parser of json.cpp as it runs: a pointer into the text and the first error.  It
 computes the reading functions of Json, and the source span it records for every
 sub-value is a text that reads as that sub-value.
 */
module JsonParser {
  import opened Wrappers
  import opened Json
  import opened JsonLocality

  /** A parsed value with its raw source span [begin, end). */
  datatype Node =
    | Leaf(value: Value, begin: nat, end: nat)
    | ArrNode(items: seq<Node>, begin: nat, end: nat)
    | ObjNode(members: seq<Member<Node>>, begin: nat, end: nat)

  function Erase(v: Node): Value
  {
    match v
    case Leaf(value, _, _) => value
    case ArrNode(items, _, _) => Arr(EraseItems(items))
    case ObjNode(ms, _, _) => Obj(EraseMembers(ms))
  }

  function EraseItems(items: seq<Node>): (r: seq<Value>)
    ensures |r| == |items| && forall i :: 0 <= i < |r| ==> r[i] == Erase(items[i])
  {
    seq(|items|, i requires 0 <= i < |items| => Erase(items[i]))
  }

  function EraseMembers(ms: seq<Member<Node>>): (r: seq<Member<Value>>)
    ensures |r| == |ms| && forall i :: 0 <= i < |r| ==> r[i] == Member(ms[i].key, Erase(ms[i].value))
  {
    seq(|ms|, i requires 0 <= i < |ms| => Member(ms[i].key, Erase(ms[i].value)))
  }

  /** v's span reads as v, and so it is for everything inside v. */
  ghost predicate Good(text: string, v: Node)
  {
    && v.begin < v.end <= |text| && !Space(text[v.begin])
    && ReadValue(text[v.begin..]) == Ok(Erase(v), v.end - v.begin)
    && match v
       case Leaf(x, _, _) => !x.Arr? && !x.Obj?
       case ArrNode(items, _, _) => forall i :: 0 <= i < |items| ==> Good(text, items[i])
       case ObjNode(ms, _, _) => forall i :: 0 <= i < |ms| ==> Good(text, ms[i].value)
  }

  ghost predicate Part(sub: Node, v: Node)
    decreases v
  {
    sub == v ||
    match v
    case Leaf(_, _, _) => false
    case ArrNode(items, _, _) => exists i :: 0 <= i < |items| && Part(sub, items[i])
    case ObjNode(ms, _, _) => exists i :: 0 <= i < |ms| && Part(sub, ms[i].value)
  }

  lemma SpanRereads(text: string, v: Node)
    requires Good(text, v)
    ensures v.begin < v.end <= |text| && Reads(text[v.begin..v.end], Erase(v))
  {
    hide ReadValue, Reads, Erase;
    var s, n := text[v.begin..], v.end - v.begin;
    assert Spaces(s) == 0;
    assert s[0..n] == text[v.begin..v.end];
    CutOut(s);
  }

  /** The raw span of every sub-value, taken as a text of its own, reads as that sub-value. */
  lemma {:induction false} EverySpanRereads(text: string, v: Node, sub: Node)
    requires Good(text, v) && Part(sub, v)
    ensures sub.begin < sub.end <= |text| && Reads(text[sub.begin..sub.end], Erase(sub))
    decreases v
  {
    hide ReadValue, Reads, Erase;
    if sub == v {
      SpanRereads(text, v);
    } else if v.ArrNode? {
      var i :| 0 <= i < |v.items| && Part(sub, v.items[i]);
      EverySpanRereads(text, v.items[i], sub);
    } else {
      var i :| 0 <= i < |v.members| && Part(sub, v.members[i].value);
      EverySpanRereads(text, v.members[i].value, sub);
    }
  }

  lemma EraseCons(key: string, v: Node, ms: seq<Member<Node>>)
    ensures EraseMembers([Member(key, v)] + ms) == [Member(key, Erase(v))] + EraseMembers(ms)
  {
    hide Erase;
  }

  lemma {:induction false} EraseInsert(ms: seq<Member<Node>>, key: string, v: Node)
    ensures EraseMembers(Insert(ms, key, v)) == Insert(EraseMembers(ms), key, Erase(v))
  {
    hide Less, Erase, EraseMembers;
    if ms == [] || Less(key, ms[0].key) {
      EraseCons(key, v, ms);
    } else {
      assert ms == [Member(ms[0].key, ms[0].value)] + ms[1..];
      EraseCons(ms[0].key, ms[0].value, ms[1..]);
      assert EraseMembers(ms)[1..] == EraseMembers(ms[1..]);
      if ms[0].key == key {
        EraseCons(key, v, ms[1..]);
      } else {
        EraseInsert(ms[1..], key, v);
        EraseCons(ms[0].key, ms[0].value, Insert(ms[1..], key, v));
      }
    }
  }

  lemma {:induction false} InsertGood(text: string, ms: seq<Member<Node>>, key: string, v: Node)
    requires Good(text, v) && forall m <- ms :: Good(text, m.value)
    ensures forall m <- Insert(ms, key, v) :: Good(text, m.value)
  {
    hide Good, Less;
    if ms != [] {
      assert forall m <- ms[1..] :: m in ms;
      InsertGood(text, ms[1..], key, v);
    }
  }

  lemma SkipOn<T>(a: Read<T>, j: nat, b: Read<T>)
    requires a == Skip(j, b)
    ensures b.Bad? ==> a == b
    ensures b.Ok? ==> a == Ok(b.value, j + b.n)
    ensures forall k: nat, c :: b == Skip(k, c) ==> a == Skip(j + k, c)
  {
  }

  lemma PrependNothing(r: Read<string>)
    ensures Prepend("", 0, r) == r
  {
    if r.Ok? { assert "" + r.value == r.value; }
  }

  lemma PrependTwice(a: string, j: nat, b: string, k: nat, r: Read<string>)
    ensures Prepend(a, j, Prepend(b, k, r)) == Prepend(a + b, j + k, r)
  {
    if r.Ok? { assert a + (b + r.value) == a + b + r.value; }
  }

  lemma BodyStops(s: string)
    ensures ReadBody([]) == Bad("unterminated string")
    ensures s != [] && s[0] == '"' ==> ReadBody(s) == Ok("", 1)
    ensures s != [] && s[0] < ' ' ==> ReadBody(s) == Bad("control char in string")
  {
  }

  lemma BodyEscape(s: string)
    requires s != [] && s[0] == '\\'
    ensures var e := ReadEscape(s[1..]);
            ReadBody(s) == if e.Bad? then Bad(e.msg) else Prepend(e.value, 1 + e.n, ReadBody(s[1 + e.n..]))
  {
    hide ReadEscape;
  }

  lemma BodyPlain(s: string)
    requires s != [] && s[0] >= ' ' && s[0] != '"' && s[0] != '\\'
    ensures ReadBody(s) == Prepend([s[0]], 1, ReadBody(s[1..]))
  {
  }

  /** An element with a list's comma or bracket after it took some bytes. */
  lemma ElementNotEmpty(s: string, v: Value, n: nat, k: nat)
    requires ReadValue(s) == Ok(v, n) && k == n + Spaces(s[n..]) && k < |s| && s[k] in ",]}"
    ensures n > Spaces(s)
  {
    hide ReadValue, Spaces;
    assert Agree(s, s, |s|);
    assert ReadElement(s) == Ok(v, k);
    ElementDelimited(s, s, |s|);
  }

  /** At a byte that is not white space, a value is what starts there. */
  lemma TokenIsValue(text: string, p: nat)
    requires p < |text| && !Space(text[p])
    ensures Spaces(text[p..]) == 0 && ReadValue(text[p..]) == ReadToken(text[p..])
  {
    hide ReadToken;
    assert text[p..][0..] == text[p..];
  }

  /** The opening bracket of a list and the white space after it. */
  lemma Opening(s: string)
    requires s != [] && (s[0] == '[' || s[0] == '{')
    ensures var k := 1 + Spaces(s[1..]);
            if s[0] == '[' then
              ReadToken(s) == if k < |s| && s[k] == ']' then Ok(Arr([]), k + 1) else Skip(k, ReadItems(s[k..], []))
            else
              ReadToken(s) == if k < |s| && s[k] == '}' then Ok(Obj([]), k + 1) else Skip(k, ReadMembers(s[k..], []))
  {
    if s[0] == '[' { OpeningArray(s); } else { OpeningObject(s); }
    hide *;
  }

  lemma OpeningArray(s: string)
    requires s != [] && s[0] == '['
    ensures var k := 1 + Spaces(s[1..]);
            ReadToken(s) == if k < |s| && s[k] == ']' then Ok(Arr([]), k + 1) else Skip(k, ReadItems(s[k..], []))
  {
    hide ReadItems, ReadMembers, ReadString, ReadNumber, ReadLiteral, Spaces, Skip;
  }

  lemma OpeningObject(s: string)
    requires s != [] && s[0] == '{'
    ensures var k := 1 + Spaces(s[1..]);
            ReadToken(s) == if k < |s| && s[k] == '}' then Ok(Obj([]), k + 1) else Skip(k, ReadMembers(s[k..], []))
  {
    hide ReadItems, ReadMembers, ReadString, ReadNumber, ReadLiteral, Spaces, Skip;
  }

  lemma OtherToken(s: string)
    requires s != [] && s[0] !in "{[\"-" && !Digit(s[0])
    ensures ReadToken(s) ==
            if s[0] == 't' then ReadLiteral(s, "true", Bool(true))
            else if s[0] == 'f' then ReadLiteral(s, "false", Bool(false))
            else if s[0] == 'n' then ReadLiteral(s, "null", Null)
            else Bad("unexpected char")
  {
    hide ReadLiteral, ReadItems, ReadMembers, ReadString, ReadNumber;
  }

  /** The white space before a value ends at p. */
  lemma AfterSpaces(text: string, start: nat, p: nat)
    requires start <= |text| && p == start + Spaces(text[start..])
    ensures ReadValue(text[start..]) == if p == |text| then Bad("empty input")
              else Skip(p - start, ReadToken(text[p..]))
  {
    assert ReadToken([]) == Bad("empty input");
    hide Spaces, ReadToken;
    assert text[start..][p - start..] == text[p..];
    if p == |text| { assert text[p..] == []; }
  }

  lemma StringToken(s: string)
    requires s != [] && s[0] == '"'
    ensures var r := ReadString(s);
            ReadToken(s) == if r.Bad? then Bad(r.msg) else Ok(Str(r.value), r.n)
  {
    hide ReadItems, ReadMembers, ReadString, ReadNumber;
  }

  lemma NumberToken(s: string)
    requires s != [] && (s[0] == '-' || Digit(s[0]))
    ensures ReadToken(s) == ReadNumber(s) && !Space(s[0])
  {
    hide ReadNumber, ReadItems, ReadMembers, ReadString;
  }

  lemma ItemsEnd(acc: seq<Value>)
    ensures ReadItems([], acc) == Bad("unterminated array")
  {
  }

  lemma MembersEnd(acc: seq<Member<Value>>)
    ensures ReadMembers([], acc) == Bad("unterminated object")
  {
  }

  /** An array's element was read; the white space after it ends at k. */
  lemma ItemsStep(s: string, acc: seq<Value>, v: Value, n: nat, k: nat)
    requires ReadValue(s) == Ok(v, n) && s != [] && k == n + Spaces(s[n..])
    ensures var r := ReadItems(s, acc);
            if k < |s| && s[k] == ',' then r == Skip(k + 1, ReadItems(s[k + 1..], acc + [v]))
            else if k < |s| && s[k] == ']' then r == Ok(Arr(acc + [v]), k + 1)
            else r == Bad("expected ',' or ']'")
  {
    hide ReadValue, Spaces, ReadItems;
    assert ReadElement(s) == Ok(v, k);
    hide ReadElement;
    ItemsUnfold(s, acc, v, k);
  }

  lemma ItemsFail(s: string, acc: seq<Value>)
    requires ReadValue(s).Bad? && s != []
    ensures ReadItems(s, acc) == Bad(ReadValue(s).msg)
  {
    hide ReadValue;
  }

  lemma MembersKey(s: string, acc: seq<Member<Value>>)
    requires s != []
    ensures var k := ReadKey(s);
            ReadMembers(s, acc) == if k.Bad? then Bad(k.msg) else Skip(k.n, ReadRest(s[k.n..], acc, k.value))
  {
    hide ReadKey, ReadRest;
  }

  /** A member's value was read; the white space after it ends at k. */
  lemma RestStep(s: string, acc: seq<Member<Value>>, key: string, v: Value, n: nat, k: nat)
    requires ReadValue(s) == Ok(v, n) && k == n + Spaces(s[n..])
    ensures var r, acc' := ReadRest(s, acc, key), Insert(acc, key, v);
            if k < |s| && s[k] == ',' then r == Skip(k + 1, ReadMembers(s[k + 1..], acc'))
            else if k < |s| && s[k] == '}' then r == Ok(Obj(acc'), k + 1)
            else r == Bad("expected ',' or '}'")
  {
    hide ReadValue, Insert, ReadMembers, Spaces;
    assert ReadElement(s) == Ok(v, k);
    hide ReadElement;
  }

  lemma RestFail(s: string, acc: seq<Member<Value>>, key: string)
    requires ReadValue(s).Bad?
    ensures ReadRest(s, acc, key) == Bad(ReadValue(s).msg)
  {
    hide ReadValue;
  }

  lemma NumberIs(s: string, token: string)
    requires token == s[..Run(s)]
    ensures ReadNumber(s) == Ok(NumberValue(token[..NumberPrefix(token)]), NumberPrefix(token))
  {
    hide NumberValue, NumberPrefix;
  }

  lemma FinishList(text: string, v: Node)
    requires !v.Leaf? && v.begin < v.end <= |text| && !Space(text[v.begin])
    requires ReadToken(text[v.begin..]) ==
             Ok(if v.ArrNode? then Arr(EraseItems(v.items)) else Obj(EraseMembers(v.members)), v.end - v.begin)
    requires v.ArrNode? ==> forall i :: 0 <= i < |v.items| ==> Good(text, v.items[i])
    requires v.ObjNode? ==> forall i :: 0 <= i < |v.members| ==> Good(text, v.members[i].value)
    ensures Good(text, v) && ReadValue(text[v.begin..]) == Ok(Erase(v), v.end - v.begin)
  {
    hide ReadToken;
    TokenIsValue(text, v.begin);
  }

  const NOTHING := Leaf(Null, 0, 0)

  class Parser {
    const text: string
    var p: nat
    var err: string

    constructor (text: string)
      ensures this.text == text && p == 0 && err == ""
    {
      this.text := text;
      p := 0;
      err := "";
    }

    /** What a parsing method that started at `start` leaves behind. */
    ghost predicate Done<T(!new)>(start: nat, r: Read<T>)
      requires start <= |text|
      reads this
    {
      p <= |text| &&
      match r
      case Ok(_, n) => p == start + n && err == ""
      case Bad(m) => err == m && m != ""
    }

    ghost predicate Parsed(start: nat, r: Read<Value>, v: Node)
      requires start <= |text|
      reads this
    {
      Done(start, r) &&
      (r.Ok? ==>
         && Erase(v) == r.value && v.end == p
         && v.begin == start + Spaces(text[start..]) && (v.begin < v.end ==> Good(text, v)))
    }

    method SkipWs()
      requires p <= |text|
      modifies this`p
      ensures p == old(p) + Spaces(text[old(p)..])
    {
      while p < |text| && Space(text[p])
        invariant old(p) <= p <= |text|
        invariant Spaces(text[old(p)..]) == p - old(p) + Spaces(text[p..])
      {
        p := p + 1;
      }
    }

    method Fail(m: string)
      modifies this`err
      ensures err == if old(err) == "" then m else old(err)
    {
      if err == "" { err := m; }
    }

    method ParseHex() returns (ok: bool, cp: nat)
      requires p <= |text| && err == ""
      modifies this
      ensures Done(old(p), ReadHex(text[old(p)..])) && ok == ReadHex(text[old(p)..]).Ok?
      ensures ok ==> cp == ReadHex(text[old(p)..]).value
    {
      ghost var s := text[p..];
      if p + 4 > |text| { Fail("bad \\u"); return false, 0; }
      var i := 0;
      cp := 0;
      while i < 4
        invariant 0 <= i <= 4 && p == old(p) + i && err == ""
        invariant forall j :: 0 <= j < i ==> HexValue(s[j]).Some?
        invariant i >= 1 ==> cp == HexDigits(s[..i])
        invariant i == 0 ==> cp == 0
      {
        var h := HexValue(text[p]);
        assert text[p] == s[i];
        p := p + 1;
        if h == None { Fail("bad \\u hex"); return false, 0; }
        assert s[..i + 1] == s[..i] + [s[i]];
        cp := cp * 16 + h.value;
        i := i + 1;
      }
      HexFour(s);
      return true, cp;
    }

    method ParseEscape() returns (ok: bool, out: string)
      requires p <= |text| && err == ""
      modifies this
      ensures Done(old(p), ReadEscape(text[old(p)..])) && ok == ReadEscape(text[old(p)..]).Ok?
      ensures ok ==> out == ReadEscape(text[old(p)..]).value
    {
      if p >= |text| { Fail("bad escape"); return false, ""; }
      var e := text[p];
      p := p + 1;
      ok := true;
      match e
      case '"' => out := "\"";
      case '\\' => out := "\\";
      case '/' => out := "/";
      case 'b' => out := [8 as char];
      case 'f' => out := [12 as char];
      case 'n' => out := "\n";
      case 'r' => out := "\r";
      case 't' => out := "\t";
      case 'u' =>
        var good, cp := ParseHex();
        if !good { return false, ""; }
        out := Utf8(cp);
      case _ =>
        Fail("bad escape char");
        return false, "";
    }

    method ParseString() returns (ok: bool, out: string)
      requires p <= |text| && err == ""
      modifies this
      ensures Done(old(p), ReadString(text[old(p)..])) && ok == ReadString(text[old(p)..]).Ok?
      ensures ok ==> out == ReadString(text[old(p)..]).value
    {
      hide ReadEscape, Spaces, ReadBody;
      out := "";
      if p >= |text| || text[p] != '"' { Fail("expected string"); return false, out; }
      p := p + 1;
      ghost var start := p;
      PrependNothing(ReadBody(text[start..]));
      while p < |text|
        invariant start <= p <= |text| && err == "" && start == old(p) + 1
        invariant ReadBody(text[start..]) == Prepend(out, p - start, ReadBody(text[p..]))
      {
        var c := text[p];
        BodyStops(text[p..]);
        if c == '"' {
          p := p + 1;
          return true, out;
        }
        ghost var q, before := p, out;
        if c == '\\' {
          BodyEscape(text[p..]);
          p := p + 1;
          var good, piece := ParseEscape();
          if !good { return false, out; }
          out := out + piece;
          PrependTwice(before, q - start, piece, p - q, ReadBody(text[p..]));
        } else {
          if c < ' ' { Fail("control char in string"); return false, out; }
          BodyPlain(text[p..]);
          out := out + [c];
          p := p + 1;
          PrependTwice(before, q - start, [c], 1, ReadBody(text[p..]));
        }
      }
      assert text[p..] == [];
      BodyStops([]);
      Fail("unterminated string");
      return false, out;
    }

    method ParseLiteral(word: string, value: Value) returns (v: Node)
      requires p < |text| && !Space(text[p]) && err == "" && word != "" && !value.Arr? && !value.Obj?
      requires ReadToken(text[p..]) == ReadLiteral(text[p..], word, value)
      modifies this
      ensures Parsed(old(p), ReadValue(text[old(p)..]), v)
    {
      hide ReadToken;
      TokenIsValue(text, p);
      if |text| - p >= |word| && text[p..p + |word|] == word {
        v := Leaf(value, p, p + |word|);
        p := p + |word|;
        assert word <= text[old(p)..];
      } else {
        Fail("bad literal");
        v := NOTHING;
        assert !(word <= text[p..]);
      }
    }

    method ParseStringValue() returns (v: Node)
      requires p < |text| && text[p] == '"' && err == ""
      modifies this
      ensures Parsed(old(p), ReadValue(text[old(p)..]), v)
    {
      hide ReadString, ReadToken;
      TokenIsValue(text, p);
      StringToken(text[p..]);
      var start := p;
      var good, s := ParseString();
      if !good { return NOTHING; }
      v := Leaf(Str(s), start, p);
    }

    /** Collects the bytes a number may contain. */
    method ScanNumber() returns (token: string)
      requires p <= |text|
      modifies this`p
      ensures p == old(p) + Run(text[old(p)..]) && token == text[old(p)..p]
    {
      token := "";
      while p < |text| && NumChar(text[p])
        invariant old(p) <= p <= |text| && token == text[old(p)..p]
        invariant Run(text[old(p)..]) == p - old(p) + Run(text[p..])
      {
        token := token + [text[p]];
        p := p + 1;
      }
    }

    method ParseNumber() returns (v: Node)
      requires p < |text| && (text[p] == '-' || Digit(text[p])) && err == ""
      modifies this
      ensures Parsed(old(p), ReadValue(text[old(p)..]), v)
    {
      hide ReadToken, NumberPrefix, NumberValue, Spaces, ReadValue, Run;
      TokenIsValue(text, p);
      NumberToken(text[p..]);
      var start := p;
      var token := ScanNumber();
      assert token == text[start..][..Run(text[start..])];
      var n := NumberPrefix(token);
      NumberIs(text[start..], token);
      ghost var run := token;
      if n != |token| {
        token := token[..n];
        p := start + n;
      }
      assert token == run[..n];
      v := Leaf(NumberValue(token), start, p);
    }

    /** An element and the white space after it, in an array with elements acc. */
    method ParseItem(ghost acc: seq<Value>) returns (ok: bool, item: Node)
      requires p < |text| && err == ""
      modifies this
      ensures p <= |text|
      ensures !ok ==> err != "" && ReadItems(text[old(p)..], acc) == Bad(err)
      ensures ok ==> err == "" && old(p) <= p <= |text|
      ensures ok ==>
        var r, acc' := ReadItems(text[old(p)..], acc), acc + [Erase(item)];
        if p < |text| && text[p] == ',' then
          r == Skip(p + 1 - old(p), ReadItems(text[p + 1..], acc')) && Good(text, item)
        else if p < |text| && text[p] == ']' then
          r == Ok(Arr(acc'), p + 1 - old(p)) && Good(text, item)
        else r == Bad("expected ',' or ']'")
      decreases |text| - p, 2
    {
      hide ReadItems, Good, ReadElement, ReadToken, Spaces, ReadValue;
      ghost var s, before := text[p..], p;
      item := ParseValue();
      if err != "" {
        ItemsFail(s, acc);
        return false, NOTHING;
      }
      ghost var n := p - before;
      SkipWs();
      ItemsStep(s, acc, Erase(item), n, p - before);
      if p < |text| && text[p] in ",]" { ElementNotEmpty(s, Erase(item), n, p - before); }
      ok := true;
    }

    method ParseArray() returns (v: Node)
      requires p < |text| && text[p] == '[' && err == ""
      modifies this
      ensures Parsed(old(p), ReadValue(text[old(p)..]), v)
      decreases |text| - p, 0
    {
      hide ReadItems, Good, ReadToken, Spaces, ReadValue, ReadMembers, Erase, EraseMembers, Skip;
      TokenIsValue(text, p);
      Opening(text[p..]);
      var start := p;
      p := p + 1;
      SkipWs();
      if p < |text| && text[p] == ']' {
        p := p + 1;
        v := ArrNode([], start, p);
        FinishList(text, v);
        return;
      }
      v := ParseItems(start);
    }

    /** The elements of the array that opened at start, one or more. */
    method ParseItems(start: nat) returns (v: Node)
      requires start < p <= |text| && !Space(text[start]) && err == ""
      requires ReadToken(text[start..]) == Skip(p - start, ReadItems(text[p..], []))
      modifies this
      ensures Parsed(start, ReadToken(text[start..]), v)
      decreases |text| - p, 3
    {
      hide ReadItems, Good, ReadToken, ReadValue, ReadMembers, Erase, EraseMembers, Skip;
      TokenIsValue(text, start);
      hide Spaces;
      var items: seq<Node> := [];
      while p < |text|
        invariant start < p <= |text| && err == "" && old(p) <= p
        invariant ReadToken(text[start..]) == Skip(p - start, ReadItems(text[p..], EraseItems(items)))
        invariant forall i :: 0 <= i < |items| ==> Good(text, items[i])
      {
        ghost var acc := EraseItems(items);
        SkipOn(ReadToken(text[start..]), p - start, ReadItems(text[p..], acc));
        var good, item := ParseItem(acc);
        if !good { return NOTHING; }
        items := items + [item];
        assert EraseItems(items) == acc + [Erase(item)];
        if p < |text| && text[p] == ',' {
          p := p + 1;
          continue;
        }
        if p < |text| && text[p] == ']' {
          p := p + 1;
          v := ArrNode(items, start, p);
          FinishList(text, v);
          return;
        }
        Fail("expected ',' or ']'");
        return NOTHING;
      }
      assert text[p..] == [];
      SkipOn(ReadToken(text[start..]), p - start, ReadItems([], EraseItems(items)));
      ItemsEnd(EraseItems(items));
      Fail("unterminated array");
      return NOTHING;
    }

    method ParseKey() returns (ok: bool, key: string)
      requires p <= |text| && err == ""
      modifies this
      ensures Done(old(p), ReadKey(text[old(p)..])) && ok == ReadKey(text[old(p)..]).Ok?
      ensures ok ==> key == ReadKey(text[old(p)..]).value
    {
      hide ReadString, Spaces;
      SkipWs();
      ok, key := ParseString();
      if !ok { return; }
      SkipWs();
      if p >= |text| || text[p] != ':' {
        Fail("expected ':'");
        return false, key;
      }
      p := p + 1;
    }

    /** A key, its value and the white space after it; `more` has the new member. */
    method ParseMember(members: seq<Member<Node>>) returns (ok: bool, more: seq<Member<Node>>)
      requires p < |text| && err == "" && forall m <- members :: Good(text, m.value)
      modifies this
      ensures p <= |text|
      ensures !ok ==> err != "" && ReadMembers(text[old(p)..], EraseMembers(members)) == Bad(err)
      ensures ok ==> err == "" && old(p) < p
      ensures ok ==>
        var r := ReadMembers(text[old(p)..], EraseMembers(members));
        if p < |text| && text[p] == ',' then
          r == Skip(p + 1 - old(p), ReadMembers(text[p + 1..], EraseMembers(more))) &&
            forall m <- more :: Good(text, m.value)
        else if p < |text| && text[p] == '}' then
          r == Ok(Obj(EraseMembers(more)), p + 1 - old(p)) && forall m <- more :: Good(text, m.value)
        else r == Bad("expected ',' or '}'")
      decreases |text| - p, 0
    {
      hide ReadMembers, Good, ReadElement, ReadKey, Insert, ReadToken, ReadRest, Spaces, ReadValue, EraseMembers, Erase;
      ghost var acc := EraseMembers(members);
      more := [];
      MembersKey(text[p..], acc);
      var key;
      ok, key := ParseKey();
      if !ok { return; }
      ghost var s, before := text[p..], p;
      var item := ParseValue();
      if err != "" {
        RestFail(s, acc, key);
        return false, more;
      }
      ghost var n := p - before;
      SkipWs();
      RestStep(s, acc, key, Erase(item), n, p - before);
      EraseInsert(members, key, item);
      more := Insert(members, key, item);
      if p < |text| && text[p] in ",}" {
        ElementNotEmpty(s, Erase(item), n, p - before);
        InsertGood(text, members, key, item);
      }
    }

    method ParseObject() returns (v: Node)
      requires p < |text| && text[p] == '{' && err == ""
      modifies this
      ensures Parsed(old(p), ReadValue(text[old(p)..]), v)
      decreases |text| - p, 0
    {
      hide ReadMembers, Good, Insert, ReadToken, Spaces, ReadValue, ReadItems, Erase, EraseItems, Less, Skip;
      TokenIsValue(text, p);
      Opening(text[p..]);
      var start := p;
      p := p + 1;
      SkipWs();
      if p < |text| && text[p] == '}' {
        p := p + 1;
        v := ObjNode([], start, p);
        FinishList(text, v);
        return;
      }
      v := ParseMembers(start);
    }

    /** The members of the object that opened at start, one or more. */
    method ParseMembers(start: nat) returns (v: Node)
      requires start < p <= |text| && !Space(text[start]) && err == ""
      requires ReadToken(text[start..]) == Skip(p - start, ReadMembers(text[p..], []))
      modifies this
      ensures Parsed(start, ReadToken(text[start..]), v)
      decreases |text| - p, 1
    {
      hide ReadMembers, Good, Insert, ReadToken, ReadValue, ReadItems, Erase, EraseItems, Less, Skip;
      TokenIsValue(text, start);
      hide Spaces;
      var members: seq<Member<Node>> := [];
      while p < |text|
        invariant start < p <= |text| && err == "" && old(p) <= p
        invariant ReadToken(text[start..]) == Skip(p - start, ReadMembers(text[p..], EraseMembers(members)))
        invariant forall m <- members :: Good(text, m.value)
      {
        SkipOn(ReadToken(text[start..]), p - start, ReadMembers(text[p..], EraseMembers(members)));
        var good, more := ParseMember(members);
        if !good { return NOTHING; }
        members := more;
        if p < |text| && text[p] == ',' {
          p := p + 1;
          continue;
        }
        if p < |text| && text[p] == '}' {
          p := p + 1;
          v := ObjNode(members, start, p);
          FinishList(text, v);
          return;
        }
        Fail("expected ',' or '}'");
        return NOTHING;
      }
      assert text[p..] == [];
      SkipOn(ReadToken(text[start..]), p - start, ReadMembers([], EraseMembers(members)));
      MembersEnd(EraseMembers(members));
      Fail("unterminated object");
      return NOTHING;
    }

    method ParseValue() returns (v: Node)
      requires p <= |text| && err == ""
      modifies this
      ensures Parsed(old(p), ReadValue(text[old(p)..]), v)
      decreases |text| - p, 1
    {
      hide ReadToken, ReadValue, Good;
      SkipWs();
      AfterSpaces(text, old(p), p);
      hide Spaces;
      if p >= |text| {
        Fail("empty input");
        return NOTHING;
      }
      var c := text[p];
      TokenIsValue(text, p);
      if c == '{' {
        v := ParseObject();
      } else if c == '[' {
        v := ParseArray();
      } else if c == '"' {
        v := ParseStringValue();
      } else if c == 't' {
        OtherToken(text[p..]);
        v := ParseLiteral("true", Bool(true));
      } else if c == 'f' {
        OtherToken(text[p..]);
        v := ParseLiteral("false", Bool(false));
      } else if c == 'n' {
        OtherToken(text[p..]);
        v := ParseLiteral("null", Null);
      } else if c == '-' || Digit(c) {
        v := ParseNumber();
      } else {
        OtherToken(text[p..]);
        Fail("unexpected char");
        v := NOTHING;
      }
    }
  }

  lemma WholeNotEmpty(text: string)
    requires Json.Parse(text).Ok?
    ensures ReadValue(text).n > Spaces(text)
  {
    var n := ReadValue(text).n;
    if n == Spaces(text) { NoProgress(text[n..]); }
  }

  /** parse: the parser's value, provided nothing but white space follows it. */
  method ParseText(text: string) returns (v: Node, err: string)
    ensures match Json.Parse(text)
            case Ok(value, _) => err == "" && Erase(v) == value && Good(text, v)
            case Bad(m) => err == m && v == NOTHING
  {
    hide ReadValue, Spaces, Good;
    var parser := new Parser(text);
    assert text[0..] == text;
    v := parser.ParseValue();
    ghost var failed := parser.err != "";
    parser.SkipWs();
    if !failed && parser.p == |text| { WholeNotEmpty(text); }
    if parser.err != "" || parser.p != |text| {
      err := if parser.err == "" then "trailing characters" else parser.err;
      v := NOTHING;
    } else {
      err := "";
    }
  }

  function HexDigits(s: string): nat
    requires forall j :: 0 <= j < |s| ==> HexValue(s[j]).Some?
  {
    if s == [] then 0 else HexDigits(s[..|s| - 1]) * 16 + HexValue(s[|s| - 1]).value
  }

  lemma HexFour(s: string)
    requires |s| >= 4 && forall j :: 0 <= j < 4 ==> HexValue(s[j]).Some?
    ensures ReadHex(s) == Ok(HexDigits(s[..4]), 4)
  {
    assert s[..4][..3] == s[..3] && s[..3][..2] == s[..2] && s[..2][..1] == s[..1] && s[..1][..0] == [];
    var a, b, c, d := HexValue(s[0]).value, HexValue(s[1]).value, HexValue(s[2]).value, HexValue(s[3]).value;
    assert HexDigits(s[..1]) == a;
    assert HexDigits(s[..2]) == a * 16 + b;
    assert HexDigits(s[..3]) == (a * 16 + b) * 16 + c;
  }
}
