/**
 The writer of json.cpp as it runs: loops that append to an output string.  It computes
 Json.Dump, so what it writes parses back (JsonRoundTrip.ParseDump).
 */
module JsonWriter {
  import opened Json

  lemma {:induction false} EscapeBodyAppend(s: string, c: char)
    ensures EscapeBody(s + [c]) == EscapeBody(s) + EscapeChar(c)
  {
    if s == [] {
      assert EscapeBody([]) == "" && [c][1..] == [];
    } else {
      assert (s + [c])[1..] == s[1..] + [c];
      EscapeBodyAppend(s[1..], c);
    }
  }

  lemma {:induction false} JoinAppend(texts: seq<string>, last: string)
    requires texts != []
    ensures Join(texts + [last]) == Join(texts) + "," + last
  {
    if |texts| == 1 {
      assert (texts + [last])[1..] == [last];
    } else {
      assert (texts + [last])[1..] == texts[1..] + [last];
      JoinAppend(texts[1..], last);
    }
  }

  lemma EscapeBodyNone(s: string)
    ensures EscapeBody(s[..0]) == ""
  {
  }

  method WriteEscaped(s: string) returns (out: string)
    ensures out == Escape(s)
  {
    hide EscapeBody, EscapeChar;
    out := "\"";
    EscapeBodyNone(s);
    var i := 0;
    while i < |s|
      invariant 0 <= i <= |s| && out == "\"" + EscapeBody(s[..i])
    {
      EscapeBodyAppend(s[..i], s[i]);
      assert s[..i] + [s[i]] == s[..i + 1];
      out := out + EscapeChar(s[i]);
      i := i + 1;
    }
    assert s[..i] == s;
    out := out + "\"";
  }

  /** Adds one more text to a comma-separated list that has n texts so far. */
  function Appended(out: string, n: nat, text: string): string
  {
    if n == 0 then out + text else out + "," + text
  }

  lemma AppendJoined(open: string, texts: seq<string>, i: nat)
    requires i < |texts|
    ensures Appended(open + Join(texts[..i]), i, texts[i]) == open + Join(texts[..i + 1])
  {
    assert texts[..i + 1] == texts[..i] + [texts[i]];
    if i > 0 {
      JoinAppend(texts[..i], texts[i]);
      assert open + (Join(texts[..i]) + "," + texts[i]) == open + Join(texts[..i]) + "," + texts[i];
    } else {
      assert texts[..1] == [texts[0]];
    }
  }

  method WriteItems(items: seq<Value>) returns (out: string)
    requires forall i :: 0 <= i < |items| ==> Printable(items[i])
    ensures out == "[" + Join(ItemTexts(items)) + "]"
    decreases items, 0
  {
    hide Printable, Join;
    out := "[";
    ghost var texts := ItemTexts(items);
    JoinNone(texts);
    var i := 0;
    while i < |items|
      invariant 0 <= i <= |items| && out == "[" + Join(texts[..i])
    {
      if i > 0 { out := out + ","; }
      var text := Write(items[i]);
      AppendJoined("[", texts, i);
      out := out + text;
      i := i + 1;
    }
    assert texts[..i] == texts;
    out := out + "]";
  }

  lemma JoinNone(texts: seq<string>)
    ensures Join(texts[..0]) == ""
  {
  }

  method WriteMembers(ms: seq<Member<Value>>) returns (out: string)
    requires forall i :: 0 <= i < |ms| ==> Printable(ms[i].value)
    ensures out == "{" + Join(MemberTexts(ms)) + "}"
    decreases ms, 0
  {
    hide Printable, Join, Escape;
    out := "{";
    ghost var texts := MemberTexts(ms);
    JoinNone(texts);
    var i := 0;
    while i < |ms|
      invariant 0 <= i <= |ms| && out == "{" + Join(texts[..i])
    {
      if i > 0 { out := out + ","; }
      var key := WriteEscaped(ms[i].key);
      var text := Write(ms[i].value);
      AppendJoined("{", texts, i);
      ghost var before := out;
      out := out + key;
      out := out + ":";
      out := out + text;
      assert out == before + texts[i];
      i := i + 1;
    }
    assert texts[..i] == texts;
    out := out + "}";
  }

  method Write(v: Value) returns (out: string)
    requires Printable(v)
    ensures out == Dump(v)
    decreases v, 1
  {
    match v
    case Null => out := "null";
    case Bool(b) => out := if b then "true" else "false";
    case Num(n) => out := IntText(n);
    case Str(s) => out := WriteEscaped(s);
    case Arr(items) => out := WriteItems(items);
    case Obj(ms) => out := WriteMembers(ms);
  }
}
