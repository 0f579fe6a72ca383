/**
 The response of the C++ gateway (finalize in main.cpp): literal text around the raw
 spans of the worker's own "action" and "shape".  The client parses it to an object
 whose action is the worker's action.
 */
module Splice {
  import opened Wrappers
  import opened Json
  import opened JsonLocality
  import opened JsonMaps
  import opened JsonRoundTrip
  import opened JsonParser
  import JsonWriter

  // ---------------------------------------------------------------- lookups

  /** value.find("a")->find("b") */
  function FindNode(v: Node, key: string): Option<Node>
  {
    if v.ObjNode? then Find(v.members, key) else None
  }

  function FindData(v: Node, key: string): Option<Node>
  {
    match FindNode(v, "data")
    case None => None
    case Some(d) => FindNode(d, key)
  }

  lemma {:induction false} FoundIsMember(ms: seq<Member<Node>>, key: string)
    requires Find(ms, key).Some?
    ensures exists i :: 0 <= i < |ms| && ms[i].value == Find(ms, key).value
  {
    if ms[0].key == key {
      assert ms[0].value == Find(ms, key).value;
    } else {
      FoundIsMember(ms[1..], key);
      var i :| 0 <= i < |ms[1..]| && ms[1..][i].value == Find(ms[1..], key).value;
      assert ms[i + 1].value == Find(ms, key).value;
    }
  }

  lemma FoundIsGood(text: string, v: Node, key: string)
    requires Good(text, v) && FindNode(v, key).Some?
    ensures Good(text, FindNode(v, key).value)
  {
    hide ReadValue, Erase, Find;
    FoundIsMember(v.members, key);
    var i :| 0 <= i < |v.members| && v.members[i].value == Find(v.members, key).value;
  }

  // ---------------------------------------------------------------- the response

  function Span(text: string, v: Option<Node>): string
    requires v.Some? ==> v.value.begin <= v.value.end <= |text|
  {
    if v.Some? then text[v.value.begin..v.value.end] else "[]"
  }

  function SpanValue(v: Option<Node>): Value
  {
    if v.Some? then Erase(v.value) else Arr([])
  }

  function Strings(names: seq<string>): seq<Value>
  {
    seq(|names|, i requires 0 <= i < |names| => Str(names[i]))
  }

  function Response(model: string, mode: string, action: string, shape: string, missing: seq<string>): string
  {
    "{\"ok\":true,\"model\":" + Dump(Str(model)) +
    ",\"mode\":" + Dump(Str(mode)) +
    ",\"action\":" + action +
    ",\"shape\":" + shape +
    ",\"missing_cameras\":" + Dump(Arr(Strings(missing))) + "}"
  }

  /** The members of the response, in the order they are written. */
  function Fields(model: string, mode: string, action: Value, shape: Value, missing: seq<string>): seq<Member<Value>>
  {
    [Member("ok", Bool(true)), Member("model", Str(model)), Member("mode", Str(mode)),
     Member("action", action), Member("shape", shape), Member("missing_cameras", Arr(Strings(missing)))]
  }

  /** A key that is written as it is. */
  predicate PlainKey(key: string)
  {
    forall i :: 0 <= i < |key| ==> ' ' <= key[i] && key[i] != '"' && key[i] != '\\'
  }

  lemma {:induction false} PlainBody(s: string)
    requires PlainKey(s)
    ensures EscapeBody(s) == s
  {
    if s != [] {
      assert EscapeChar(s[0]) == [s[0]];
      PlainBody(s[1..]);
      assert [s[0]] + s[1..] == s;
    }
  }

  lemma PlainEntry(key: string, text: string)
    requires PlainKey(key)
    ensures Entry(key, text) == "\"" + key + "\":" + text
  {
    hide EscapeBody;
    PlainBody(key);
  }

  /** Joining appends: the texts so far, a comma, the next one. */
  lemma {:induction false} JoinMore(texts: seq<string>, last: string)
    requires texts != []
    ensures "{" + Join(texts + [last]) == "{" + Join(texts) + "," + last
  {
    JsonWriter.JoinAppend(texts, last);
    assert "{" + (Join(texts) + "," + last) == "{" + Join(texts) + "," + last;
  }

  lemma FieldIsEntry(prefix: string, key: string, text: string)
    requires PlainKey(key)
    ensures prefix + (",\"" + key + "\":") + text == prefix + "," + Entry(key, text)
  {
    hide Entry;
    PlainEntry(key, text);
  }

  function Texts(model: string, mode: string, action: string, shape: string, missing: seq<string>): (r: seq<string>)
    ensures |r| == |KEYS|
  {
    ["true", Dump(Str(model)), Dump(Str(mode)), action, shape, Dump(Arr(Strings(missing)))]
  }

  function Entries(keys: seq<string>, texts: seq<string>): seq<string>
    requires |keys| == |texts|
  {
    seq(|keys|, i requires 0 <= i < |keys| => Entry(keys[i], texts[i]))
  }

  const KEYS := ["ok", "model", "mode", "action", "shape", "missing_cameras"]

  lemma EntriesAppend(keys: seq<string>, texts: seq<string>, n: nat)
    requires |keys| == |texts| && 0 < n < |keys|
    ensures "{" + Join(Entries(keys[..n + 1], texts[..n + 1])) ==
            "{" + Join(Entries(keys[..n], texts[..n])) + "," + Entry(keys[n], texts[n])
  {
    hide Entry, Join;
    assert Entries(keys[..n + 1], texts[..n + 1]) == Entries(keys[..n], texts[..n]) + [Entry(keys[n], texts[n])];
    JoinMore(Entries(keys[..n], texts[..n]), Entry(keys[n], texts[n]));
  }

  /** The response's first n fields, as the concatenation in finalize builds them. */
  function Prefix(texts: seq<string>, n: nat): string
    requires |texts| == 6 && 0 < n <= 6
  {
    if n == 1 then "{\"ok\":" + texts[0] else Prefix(texts, n - 1) + (",\"" + KEYS[n - 1] + "\":") + texts[n - 1]
  }

  lemma {:induction false} PrefixIsJoined(texts: seq<string>, n: nat)
    requires |texts| == 6 && 0 < n <= 6
    ensures Prefix(texts, n) == "{" + Join(Entries(KEYS[..n], texts[..n]))
  {
    hide Join, Entry;
    if n == 1 {
      PlainEntry("ok", texts[0]);
      assert Entries(KEYS[..1], texts[..1]) == [Entry("ok", texts[0])];
      JoinOne(Entry("ok", texts[0]));
      assert "{" + ("\"" + "ok" + "\":" + texts[0]) == "{\"ok\":" + texts[0];
    } else {
      PrefixIsJoined(texts, n - 1);
      FieldIsEntry(Prefix(texts, n - 1), KEYS[n - 1], texts[n - 1]);
      EntriesAppend(KEYS, texts, n - 1);
    }
  }

  lemma JoinOne(x: string)
    ensures Join([x]) == x
  {
  }

  lemma ResponseIsJoined(model: string, mode: string, action: string, shape: string, missing: seq<string>)
    ensures Response(model, mode, action, shape, missing) ==
            "{" + Join(Entries(KEYS, Texts(model, mode, action, shape, missing))) + "}"
  {
    hide Join, Entry, Dump;
    var t := Texts(model, mode, action, shape, missing);
    PrefixIsJoined(t, 6);
    assert KEYS[..6] == KEYS && t[..6] == t;
    assert "{\"ok\":" + "true" + (",\"" + "model" + "\":") == "{\"ok\":true,\"model\":";
    assert ",\"" + "mode" + "\":" == ",\"mode\":";
    assert ",\"" + "action" + "\":" == ",\"action\":";
    assert ",\"" + "shape" + "\":" == ",\"shape\":";
    assert ",\"" + "missing_cameras" + "\":" == ",\"missing_cameras\":";
    assert Prefix(t, 2) == Prefix(t, 1) + ",\"model\":" + t[1];
    assert Prefix(t, 3) == Prefix(t, 2) + ",\"mode\":" + t[2];
    assert Prefix(t, 4) == Prefix(t, 3) + ",\"action\":" + t[3];
    assert Prefix(t, 5) == Prefix(t, 4) + ",\"shape\":" + t[4];
    assert Prefix(t, 6) == Prefix(t, 5) + ",\"missing_cameras\":" + t[5];
  }

  lemma DataIsGood(raw: string, root: Node, key: string)
    requires Good(raw, root) && FindData(root, key).Some?
    ensures Good(raw, FindData(root, key).value)
  {
    hide Good;
    FoundIsGood(raw, root, "data");
    FoundIsGood(raw, FindNode(root, "data").value, key);
  }

  /** The copied span, or "[]" when the field is missing, reads as the worker's value. */
  lemma SpanReads(raw: string, root: Node, key: string)
    requires Good(raw, root)
    ensures var f := FindData(root, key);
            && (f.Some? ==> f.value.begin <= f.value.end <= |raw|)
            && Reads(Span(raw, f), SpanValue(f))
  {
    hide Reads, ReadValue, Erase;
    if FindData(root, key).Some? {
      DataIsGood(raw, root, key);
      SpanRereads(raw, FindData(root, key).value);
    } else {
      ArrayReads([], []);
      assert "[" + Join([]) + "]" == "[]";
    }
  }

  lemma TextsRead(model: string, mode: string, action: string, shape: string, missing: seq<string>, a: Value, sh: Value)
    requires Reads(action, a) && Reads(shape, sh)
    ensures EntriesRead(Entries(KEYS, Texts(model, mode, action, shape, missing)),
              Texts(model, mode, action, shape, missing), Fields(model, mode, a, sh, missing))
  {
    hide Reads, Dump, Entry;
    DumpReads(Bool(true));
    assert Dump(Bool(true)) == "true" by { LiteralText(); }
    DumpReads(Str(model));
    DumpReads(Str(mode));
    DumpReads(Arr(Strings(missing)));
  }

  lemma LiteralText()
    ensures Dump(Bool(true)) == "true"
  {
  }

  /** The client finds under each key what the gateway meant to send: under "action" the
      very value the worker's reply has there, numbers of any spelling included. */
  lemma ResponseRelaysAction(raw: string, root: Node, model: string, mode: string, missing: seq<string>)
    requires Good(raw, root)
    ensures var action, shape := FindData(root, "action"), FindData(root, "shape");
            && (action.Some? ==> action.value.begin <= action.value.end <= |raw|)
            && (shape.Some? ==> shape.value.begin <= shape.value.end <= |raw|)
            && var out := Response(model, mode, Span(raw, action), Span(raw, shape), missing);
               var ms := InsertAll([], Fields(model, mode, SpanValue(action), SpanValue(shape), missing));
               && Parse(out) == Ok(Obj(ms), |out|)
               && Find(ms, "ok") == Some(Bool(true)) && Find(ms, "model") == Some(Str(model))
               && Find(ms, "mode") == Some(Str(mode)) && Find(ms, "action") == Some(SpanValue(action))
               && Find(ms, "shape") == Some(SpanValue(shape))
               && Find(ms, "missing_cameras") == Some(Arr(Strings(missing)))
  {
    hide Reads, Good, InsertAll, Find, Response, Parse;
    SpanReads(raw, root, "action");
    SpanReads(raw, root, "shape");
    var action, shape := FindData(root, "action"), FindData(root, "shape");
    RelayedText(model, mode, Span(raw, action), Span(raw, shape), missing, SpanValue(action), SpanValue(shape));
    FieldsFound(model, mode, SpanValue(action), SpanValue(shape), missing);
  }

  lemma RelayedText(model: string, mode: string, action: string, shape: string, missing: seq<string>, a: Value,
      sh: Value)
    requires Reads(action, a) && Reads(shape, sh)
    ensures var out := Response(model, mode, action, shape, missing);
            Parse(out) == Ok(Obj(InsertAll([], Fields(model, mode, a, sh, missing))), |out|)
  {
    hide Reads, Response, Fields, InsertAll, Entries, Texts;
    var texts := Texts(model, mode, action, shape, missing);
    TextsRead(model, mode, action, shape, missing, a, sh);
    ResponseIsJoined(model, mode, action, shape, missing);
    ObjectReads(Entries(KEYS, texts), texts, Fields(model, mode, a, sh, missing));
    WholeText(Response(model, mode, action, shape, missing), Obj(InsertAll([], Fields(model, mode, a, sh, missing))));
  }

  lemma FieldsFound(model: string, mode: string, a: Value, sh: Value, missing: seq<string>)
    ensures var ms := InsertAll([], Fields(model, mode, a, sh, missing));
            && Find(ms, "ok") == Some(Bool(true)) && Find(ms, "model") == Some(Str(model))
            && Find(ms, "mode") == Some(Str(mode)) && Find(ms, "action") == Some(a)
            && Find(ms, "shape") == Some(sh) && Find(ms, "missing_cameras") == Some(Arr(Strings(missing)))
  {
    hide InsertAll, Find;
    var fields := Fields(model, mode, a, sh, missing);
    forall i | 0 <= i < 6
      ensures Find(InsertAll([], fields), fields[i].key) == Some(fields[i].value)
    {
      FindInsertAll([], fields, fields[i].key);
      BoundOnce(fields, i, |fields|);
    }
    assert fields[0].key == "ok" && fields[1].key == "model" && fields[2].key == "mode";
    assert fields[3].key == "action" && fields[4].key == "shape" && fields[5].key == "missing_cameras";
  }

  // ---------------------------------------------------------------- any client

  ghost predicate DistinctPlain(keys: seq<string>)
  {
    (forall k <- keys :: PlainKey(k)) && forall i, j :: 0 <= i < j < |keys| ==> keys[i] != keys[j]
  }

  /** A client's reader, however strict and whatever it makes of numbers: it reads a text
      {"k": t, ...} as the object of what it reads each t as. */
  ghost predicate Compositional<V(!new)>(takes: (string, V) -> bool, build: (seq<string>, seq<V>) -> V)
  {
    forall keys, texts, values ::
      DistinctPlain(keys) && |keys| == |texts| == |values| && keys != []
      && (forall i :: 0 <= i < |keys| ==> takes(texts[i], values[i]))
      ==> takes("{" + Join(Entries(keys, texts)) + "}", build(keys, values))
  }

  lemma KeysDistinct()
    ensures DistinctPlain(KEYS)
  {
    assert |"ok"| == 2 && |"mode"| == 4 && |"model"| == |"shape"| == 5 && |"action"| == 6 && |"missing_cameras"| == 15;
    assert "model"[0] == 'm' && "shape"[0] == 's';
  }

  /** Every such client reads the response as the object with what it reads the worker's own
      bytes as under "action" and "shape". */
  lemma ResponseForAnyClient<V(!new)>(takes: (string, V) -> bool, build: (seq<string>, seq<V>) -> V,
      model: string, mode: string, action: string, shape: string, missing: seq<string>, values: seq<V>)
    requires Compositional(takes, build) && |values| == |KEYS|
    requires forall i :: 0 <= i < |KEYS| ==> takes(Texts(model, mode, action, shape, missing)[i], values[i])
    ensures takes(Response(model, mode, action, shape, missing), build(KEYS, values))
  {
    hide Response, Texts, Join, DistinctPlain, Entries;
    KeysDistinct();
    ResponseIsJoined(model, mode, action, shape, missing);
  }

  function CppObject(keys: seq<string>, values: seq<Value>): Value
  {
    if |keys| != |values| then Null
    else Obj(InsertAll([], seq(|keys|, i requires 0 <= i < |keys| => Member(keys[i], values[i]))))
  }

  /** The gateway's own reader is one. */
  lemma CppCompositional()
    ensures Compositional((t: string, v: Value) => Reads(t, v), CppObject)
  {
    hide Reads, InsertAll, Join;
    forall keys, texts, values: seq<Value> | DistinctPlain(keys) && |keys| == |texts| == |values| && keys != []
        && (forall i :: 0 <= i < |keys| ==> Reads(texts[i], values[i]))
      ensures Reads("{" + Join(Entries(keys, texts)) + "}", CppObject(keys, values))
    {
      var ms := seq(|keys|, i requires 0 <= i < |keys| => Member(keys[i], values[i]));
      ObjectReads(Entries(keys, texts), texts, ms);
    }
  }

  // ---------------------------------------------------------------- finalize

  /** What the client finds under a key of the gateway's response. */
  ghost predicate Sees(out: string, key: string, value: Value)
  {
    match Parse(out)
    case Ok(Obj(ms), n) => n == |out| && Find(ms, key) == Some(value)
    case _ => false
  }

  /** Looking a key up in a parsed object and in its value gives the same. */
  lemma {:induction false} FindErased(ms: seq<Member<Node>>, key: string)
    ensures Find(EraseMembers(ms), key) == match Find(ms, key) case None => None case Some(v) => Some(Erase(v))
  {
    hide Erase;
    if ms != [] && ms[0].key != key {
      assert EraseMembers(ms)[1..] == EraseMembers(ms[1..]);
      FindErased(ms[1..], key);
    }
  }

  lemma FieldFound(text: string, v: Node, key: string)
    requires Good(text, v)
    ensures FindNode(v, key).Some? <==> Erase(v).Obj? && Find(Erase(v).members, key).Some?
    ensures FindNode(v, key).Some? ==> Find(Erase(v).members, key) == Some(Erase(FindNode(v, key).value))
  {
    hide ReadValue, Find;
    if v.ObjNode? { FindErased(v.members, key); }
  }

  lemma DataFound(text: string, root: Node, key: string)
    requires Good(text, root) && Erase(root).Obj?
    ensures forall ds, v :: Find(Erase(root).members, "data") == Some(Obj(ds)) && Find(ds, key) == Some(v) ==>
              SpanValue(FindData(root, key)) == v
    ensures (forall ds :: Find(Erase(root).members, "data") == Some(Obj(ds)) ==> Find(ds, key) == None) ==>
              SpanValue(FindData(root, key)) == Arr([])
  {
    hide Good, Erase, Find;
    FieldFound(text, root, "data");
    if FindNode(root, "data").Some? {
      var d := FindNode(root, "data").value;
      FoundIsGood(text, root, "data");
      FieldFound(text, d, key);
    }
  }

  function ErrorResponse(msg: string): string
  {
    "{\"ok\":false,\"error\":" + Dump(Str(msg)) + "}"
  }

  /** Its entries, joined. */
  lemma ErrorIsJoined(msg: string)
    ensures ErrorResponse(msg) == "{" + Join([Entry("ok", "false"), Entry("error", Dump(Str(msg)))]) + "}"
  {
    hide Dump, Join, Entry;
    var e, f := Entry("ok", "false"), Entry("error", Dump(Str(msg)));
    PlainEntry("ok", "false");
    PlainEntry("error", Dump(Str(msg)));
    JoinOne(e);
    JoinMore([e], f);
    assert [e] + [f] == [e, f];
    assert "{" + ("\"" + "ok" + "\":" + "false") == "{\"ok\":false";
    var text := Dump(Str(msg));
    assert "{\"ok\":false" + "," + ("\"" + "error" + "\":" + text) == "{\"ok\":false,\"error\":" + text;
  }

  lemma ErrorReads(msg: string)
    ensures var ms := [Member("ok", Bool(false)), Member("error", Str(msg))];
            Parse(ErrorResponse(msg)) == Ok(Obj(InsertAll([], ms)), |ErrorResponse(msg)|)
  {
    hide Dump, Reads, Join, Parse, Entry, InsertAll, ErrorResponse;
    var texts, ms := ["false", Dump(Str(msg))], [Member("ok", Bool(false)), Member("error", Str(msg))];
    DumpReads(Bool(false));
    FalseText();
    DumpReads(Str(msg));
    ObjectReads([Entry("ok", texts[0]), Entry("error", texts[1])], texts, ms);
    ErrorIsJoined(msg);
    WholeText(ErrorResponse(msg), Obj(InsertAll([], ms)));
  }

  lemma ErrorSeen(msg: string)
    ensures Sees(ErrorResponse(msg), "ok", Bool(false)) && Sees(ErrorResponse(msg), "error", Str(msg))
  {
    hide Parse, InsertAll, Find, ErrorResponse;
    var ms := [Member("ok", Bool(false)), Member("error", Str(msg))];
    ErrorReads(msg);
    FindInsertAll([], ms, "ok");
    FindInsertAll([], ms, "error");
    BoundOnce(ms, 0, 2);
    BoundOnce(ms, 1, 2);
  }

  lemma FalseText()
    ensures Dump(Bool(false)) == "false"
  {
  }

  lemma GoodObject(text: string, v: Node)
    requires Good(text, v)
    ensures v.ObjNode? <==> Erase(v).Obj?
  {
    hide ReadValue;
  }

  /** The client finds under key what the reply's object has under "data" and key, and an
      empty array where it has nothing there. */
  ghost predicate Relayed(reply: seq<Member<Value>>, key: string, out: string)
  {
    && (forall ds, v :: Find(reply, "data") == Some(Obj(ds)) && Find(ds, key) == Some(v) ==> Sees(out, key, v))
    && ((forall ds :: Find(reply, "data") == Some(Obj(ds)) ==> Find(ds, key) == None) ==> Sees(out, key, Arr([])))
  }

  /** finalize, once the worker's reply is there: the client is sent the worker's action and
      shape from under "data", or the error. */
  method Finalize(raw: string, model: string, mode: string, missing: seq<string>) returns (out: string)
    ensures match Parse(raw)
            case Ok(Obj(ms), _) =>
              if Find(ms, "ok") == Some(Bool(true)) then
                && Sees(out, "ok", Bool(true)) && Sees(out, "model", Str(model)) && Sees(out, "mode", Str(mode))
                && Relayed(ms, "action", out) && Relayed(ms, "shape", out)
                && Sees(out, "missing_cameras", Arr(Strings(missing)))
              else
                && Sees(out, "ok", Bool(false))
                && (forall e :: Find(ms, "error") == Some(Str(e)) ==> Sees(out, "error", Str(e)))
                && ((forall e :: Find(ms, "error") != Some(Str(e))) ==> Sees(out, "error", Str("worker error")))
            case Ok(_, _) => Sees(out, "ok", Bool(false)) && Sees(out, "error", Str("worker: "))
            case Bad(m) => Sees(out, "ok", Bool(false)) && Sees(out, "error", Str("worker: " + m))
  {
    hide Good, Parse, Find, Response, ErrorResponse, InsertAll, ReadValue, Erase, SpanValue;
    var root, err := ParseText(raw);
    if err == "" { GoodObject(raw, root); }
    if err != "" || !root.ObjNode? {
      ErrorSeen("worker: " + err);
      assert "worker: " + "" == "worker: ";
      return ErrorResponse("worker: " + err);
    }
    FieldFound(raw, root, "ok");
    var ok := FindNode(root, "ok");
    if ok == None || Erase(ok.value) != Bool(true) {
      FieldFound(raw, root, "error");
      var e := FindNode(root, "error");
      var msg := if e.Some? && Erase(e.value).Str? then Erase(e.value).s else "worker error";
      ErrorSeen(msg);
      return ErrorResponse(msg);
    }
    DataFound(raw, root, "action");
    DataFound(raw, root, "shape");
    ResponseRelaysAction(raw, root, model, mode, missing);
    out := Response(model, mode, Span(raw, FindData(root, "action")), Span(raw, FindData(root, "shape")), missing);
  }
}
