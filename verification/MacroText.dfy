/**
 patch_macro on a whole source text (sweep.py): finding the #define, its logical line,
 replacing the numbers from right to left, and reading them back.
 */
module MacroText {
  import opened Wrappers
  import opened Json
  import opened MacroPatch

  // ---------------------------------------------------------------- the replacing loop

  datatype Match = Match(start: nat, end: nat)

  /** re.finditer: the matches from a position on. */
  function FindAll(s: string, from: nat): (r: seq<Match>)
    requires from <= |s|
    ensures |r| == |Numbers(s[from..])|
    ensures forall i :: 0 <= i < |r| ==> from <= r[i].start < r[i].end <= |s|
    ensures forall i, j :: 0 <= i < j < |r| ==> r[i].end <= r[j].start
    decreases |s| - from
  {
    if from == |s| then []
    else
      var n := NumLen(s[from..]);
      if n > 0 then
        assert s[from..][n..] == s[from + n..];
        [Match(from, from + n)] + FindAll(s, from + n)
      else
        assert s[from..][1..] == s[from + 1..];
        FindAll(s, from + 1)
  }

  /** body from p on, with the matches replaced by the values. */
  function Rebuild(body: string, ms: seq<Match>, vs: seq<int>, p: nat): string
    requires |ms| == |vs| && p <= |body|
    requires forall i :: 0 <= i < |ms| ==> p <= ms[i].start < ms[i].end <= |body|
    requires forall i, j :: 0 <= i < j < |ms| ==> ms[i].end <= ms[j].start
    decreases |ms|
  {
    if ms == [] then body[p..]
    else body[p..ms[0].start] + IntText(vs[0]) + Rebuild(body, ms[1..], vs[1..], ms[0].end)
  }

  lemma {:induction false} RebuildEarlier(body: string, ms: seq<Match>, vs: seq<int>, p: nat)
    requires |ms| == |vs| && p < |body|
    requires forall i :: 0 <= i < |ms| ==> p + 1 <= ms[i].start < ms[i].end <= |body|
    requires forall i, j :: 0 <= i < j < |ms| ==> ms[i].end <= ms[j].start
    ensures Rebuild(body, ms, vs, p) == [body[p]] + Rebuild(body, ms, vs, p + 1)
  {
    hide IntText, FindAll;
    if ms != [] {
      var x, rest := IntText(vs[0]), Rebuild(body, ms[1..], vs[1..], ms[0].end);
      assert body[p..ms[0].start] == [body[p]] + body[p + 1..ms[0].start];
      assert [body[p]] + body[p + 1..ms[0].start] + x + rest == [body[p]] + (body[p + 1..ms[0].start] + x + rest);
    }
  }

  lemma FindStep(s: string, from: nat)
    requires from < |s|
    ensures var n := NumLen(s[from..]);
            if n > 0 then
              FindAll(s, from) == [Match(from, from + n)] + FindAll(s, from + n) && s[from..][n..] == s[from + n..]
            else FindAll(s, from) == FindAll(s, from + 1) && s[from..][1..] == s[from + 1..]
  {
    hide NumLen;
  }

  lemma {:induction false} RebuildIsPatch(body: string, vs: seq<int>, from: nat)
    requires from <= |body| && |vs| == |Numbers(body[from..])|
    ensures Rebuild(body, FindAll(body, from), vs, from) == Patch(body[from..], vs)
    decreases |body| - from
  {
    hide NumLen, IntText, FindAll, Rebuild;
    var ms := FindAll(body, from);
    if from == |body| {
      RebuildNothing(body, from);
    } else {
      FindStep(body, from);
      var s := body[from..];
      var n := NumLen(s);
      if n > 0 {
        RebuildIsPatch(body, vs[1..], from + n);
        RebuildFirst(body, ms, vs, from);
        assert ms[1..] == FindAll(body, from + n) && body[from..from] == [];
        assert body[from..from] + IntText(vs[0]) == IntText(vs[0]);
      } else {
        RebuildIsPatch(body, vs, from + 1);
        RebuildEarlier(body, ms, vs, from);
      }
    }
  }

  lemma RebuildNothing(body: string, p: nat)
    requires p == |body|
    ensures Rebuild(body, FindAll(body, p), [], p) == [] && body[p..] == []
  {
  }

  lemma RebuildFirst(body: string, ms: seq<Match>, vs: seq<int>, p: nat)
    requires |ms| == |vs| > 0 && p <= |body|
    requires forall i :: 0 <= i < |ms| ==> p <= ms[i].start < ms[i].end <= |body|
    requires forall i, j :: 0 <= i < j < |ms| ==> ms[i].end <= ms[j].start
    ensures Rebuild(body, ms, vs, p) ==
            body[p..ms[0].start] + IntText(vs[0]) + Rebuild(body, ms[1..], vs[1..], ms[0].end)
  {
  }

  /** Replacing match m in body[..m.end] + rest, whatever the rest was replaced by. */
  lemma ReplaceOne(body: string, m: Match, p: nat, text: string, rest: string)
    requires p <= m.start < m.end <= |body|
    ensures var out := body[..m.end] + rest;
            out[..m.start] + text + out[m.end..] == body[..p] + (body[p..m.start] + text + rest)
  {
    var out := body[..m.end] + rest;
    assert out[..m.start] == body[..m.start] == body[..p] + body[p..m.start];
    assert out[m.end..] == rest;
  }

  /** The body with all matches from the i-th on replaced. */
  function Replaced(body: string, ms: seq<Match>, vs: seq<int>, i: nat): string
    requires i <= |ms| == |vs|
    requires forall k :: 0 <= k < |ms| ==> ms[k].start < ms[k].end <= |body|
    requires forall k, l :: 0 <= k < l < |ms| ==> ms[k].end <= ms[l].start
  {
    var p := if i == 0 then 0 else ms[i - 1].end;
    body[..p] + Rebuild(body, ms[i..], vs[i..], p)
  }

  lemma ReplacedStep(body: string, ms: seq<Match>, vs: seq<int>, i: nat)
    requires i < |ms| == |vs|
    requires forall k :: 0 <= k < |ms| ==> ms[k].start < ms[k].end <= |body|
    requires forall k, l :: 0 <= k < l < |ms| ==> ms[k].end <= ms[l].start
    ensures var out, m := Replaced(body, ms, vs, i + 1), ms[i];
            m.end <= |out| && out[..m.start] + IntText(vs[i]) + out[m.end..] == Replaced(body, ms, vs, i)
  {
    hide IntText, Rebuild;
    var m, p := ms[i], if i == 0 then 0 else ms[i - 1].end;
    assert ms[i..][1..] == ms[i + 1..] && vs[i..][1..] == vs[i + 1..];
    RebuildFirst(body, ms[i..], vs[i..], p);
    ReplaceOne(body, m, p, IntText(vs[i]), Rebuild(body, ms[i + 1..], vs[i + 1..], m.end));
  }

  lemma ReplacedEnds(body: string, vs: seq<int>)
    requires |vs| == |Numbers(body)|
    ensures body[0..] == body
    ensures var ms := FindAll(body, 0);
            Replaced(body, ms, vs, |ms|) == body && Replaced(body, ms, vs, 0) == Patch(body, vs)
  {
    hide IntText, NumLen, Patch, FindAll, Rebuild;
    assert body[0..] == body;
    var ms := FindAll(body, 0);
    RebuildIsPatch(body, vs, 0);
    assert ms[|ms|..] == [] && vs[|ms|..] == [] && ms[0..] == ms && vs[0..] == vs && body[..0] == [];
    RebuildLast(body, if |ms| == 0 then 0 else ms[|ms| - 1].end);
  }

  /** The loop over the matches, last one first, so that earlier positions stay valid. */
  method ReplaceNumbers(body: string, vs: seq<int>) returns (out: string)
    requires |vs| == |Numbers(body)|
    ensures out == Patch(body, vs)
  {
    hide IntText, NumLen, Patch, FindAll, Replaced, Numbers;
    ReplacedEnds(body, vs);
    var nums := FindAll(body, 0);
    out := body;
    var i := |nums|;
    while i > 0
      invariant 0 <= i <= |nums| && out == Replaced(body, nums, vs, i)
    {
      i := i - 1;
      ReplacedStep(body, nums, vs, i);
      out := out[..nums[i].start] + IntText(vs[i]) + out[nums[i].end..];
    }
  }

  lemma RebuildLast(body: string, p: nat)
    requires p <= |body|
    ensures body == body[..p] + Rebuild(body, [], [], p)
  {
  }

  // ---------------------------------------------------------------- the logical line

  predicate Blank(c: char)
  {
    c == ' ' || c == '\t' || c == '\r' || c == 11 as char || c == 12 as char
  }

  /** Length of the logical line s starts with; `slash`: the last byte that is not blank,
      on this line so far, is a backslash. */
  function Body(s: string, slash: bool): Option<nat>
  {
    if s == [] then None
    else if s[0] == '\n' && !slash then Some(1)
    else
      match Body(s[1..], NextSlash(s[0], slash))
      case None => None
      case Some(n) => Some(n + 1)
  }

  function NextSlash(c: char, slash: bool): bool
  {
    if c == '\\' then true else if c == '\n' then false else Blank(c) && slash
  }

  /** line.rstrip().endswith("\\") */
  predicate Continued(line: string)
  {
    line != [] && (line[|line| - 1] == '\\' || (Blank(line[|line| - 1]) && Continued(line[..|line| - 1])))
  }

  function Plus(k: nat, r: Option<nat>): Option<nat>
  {
    match r case None => None case Some(n) => Some(k + n)
  }

  lemma {:induction false} BodyOfLine(line: string, rest: string, slash: bool)
    requires '\n' !in line
    ensures Body(line + rest, slash) == Plus(|line|, Body(rest, if Blanks(line) then slash else Continued(line)))
    decreases |line|
  {
    if line == [] {
      assert line + rest == rest;
    } else {
      assert (line + rest)[1..] == line[1..] + rest;
      BodyOfLine(line[1..], rest, if line[0] == '\\' then true else Blank(line[0]) && slash);
      ContinuedTail(line);
    }
  }

  predicate Blanks(line: string)
  {
    forall c <- line :: Blank(c)
  }

  lemma {:induction false} ContinuedTail(line: string)
    requires line != []
    ensures Continued(line) == if Blanks(line[1..]) then line[0] == '\\' else Continued(line[1..])
    ensures Blanks(line) <==> Blank(line[0]) && Blanks(line[1..])
    decreases |line|
  {
    assert line == [line[0]] + line[1..];
    if |line| > 1 {
      var front := line[..|line| - 1];
      ContinuedTail(front);
      assert front[1..] == line[1..][..|line| - 2];
      assert line[1..] == front[1..] + [line[|line| - 1]];
      assert Blanks(line[1..]) <==> Blanks(front[1..]) && Blank(line[|line| - 1]);
    } else {
      assert Continued(line[..0]) == false;
    }
  }

  function NewLine(s: string): (n: nat)
    ensures n <= |s| && '\n' !in s[..n] && (n < |s| ==> s[n] == '\n')
  {
    if s == [] || s[0] == '\n' then 0
    else
      assert s[..1 + NewLine(s[1..])] == [s[0]] + s[1..][..NewLine(s[1..])];
      1 + NewLine(s[1..])
  }

  /** One line: the logical line goes on after it exactly if it is continued. */
  lemma LineStep(text: string, j: nat)
    requires j <= |text|
    ensures var n := NewLine(text[j..]);
            var line, r := text[j..j + n], Body(text[j..], false);
            if j + n == |text| then r == None
            else if Continued(line) then r == Plus(n + 1, Body(text[j + n + 1..], false))
            else r == Some(n + 1)
  {
    hide Continued, Blanks;
    var n := NewLine(text[j..]);
    var line, rest := text[j..j + n], text[j + n..];
    assert line == text[j..][..n] && text[j..] == line + rest;
    BodyOfLine(line, rest, false);
    if Blanks(line) { BlanksContinued(line); }
    if rest != [] { assert rest[1..] == text[j + n + 1..]; }
  }

  /** _read_define_body, line by line; None where text.index finds no newline. */
  method ReadDefineBody(text: string, at: nat) returns (end: Option<nat>)
    requires at <= |text|
    ensures end == Plus(at, Body(text[at..], false))
    ensures end.Some? ==> at < end.value <= |text|
  {
    hide Body, Continued;
    var j := at;
    while true
      invariant at <= j <= |text|
      invariant Plus(at, Body(text[at..], false)) == Plus(j, Body(text[j..], false))
      decreases |text| - j
    {
      LineStep(text, j);
      var nl := j + NewLine(text[j..]);
      if nl == |text| { return None; }
      var line := text[j..nl];
      j := nl + 1;
      if !Continued(line) { return Some(j); }
    }
  }

  lemma {:induction false} BlanksContinued(line: string)
    requires Blanks(line)
    ensures !Continued(line)
  {
    if line != [] {
      assert line[|line| - 1] in line && forall c <- line[..|line| - 1] :: c in line;
      BlanksContinued(line[..|line| - 1]);
    }
  }

  lemma {:induction false} BodyOfNumber(t: string, rest: string, slash: bool)
    requires t != [] && forall i :: 0 <= i < |t| ==> Digit(t[i]) || t[i] == '-'
    ensures Body(t + rest, slash) == Plus(|t|, Body(rest, false))
  {
    assert (t + rest)[1..] == t[1..] + rest;
    if |t| > 1 { BodyOfNumber(t[1..], rest, false); } else { assert t[1..] + rest == rest; }
  }

  lemma NumberBytes(t: string)
    requires IsNumber(t)
    ensures t != [] && forall i :: 0 <= i < |t| ==> Digit(t[i]) || t[i] == '-'
  {
    NumberParts(t);
  }

  lemma BodyPositive(s: string, slash: bool)
    ensures Body(s, slash).Some? ==> Body(s, slash).value > 0
  {
  }

  lemma BodyStep(s: string, slash: bool)
    requires s != []
    ensures Body(s, slash) ==
            if s[0] == '\n' && !slash then Some(1) else Plus(1, Body(s[1..], NextSlash(s[0], slash)))
  {
  }

  lemma NumberOnLine(t: string, rest: string, after: string, slash: bool)
    requires IsNumber(t)
    ensures Body(t + rest + after, slash) == Plus(|t|, Body(rest + after, false))
  {
    hide Body;
    NumberBytes(t);
    assert t + rest + after == t + (rest + after);
    BodyOfNumber(t, rest + after, slash);
  }

  lemma PatchedNumber(s: string, vs: seq<int>, after: string, slash: bool)
    requires s != [] && NumLen(s) > 0 && |vs| == |Numbers(s)|
    ensures var rest, x := s[NumLen(s)..], IntText(vs[0]);
            && |vs[1..]| == |Numbers(rest)| && Patch(s, vs) == x + Patch(rest, vs[1..])
            && Body(s + after, slash) == Plus(NumLen(s), Body(rest + after, false))
            && Body(Patch(s, vs) + after, slash) == Plus(|x|, Body(Patch(rest, vs[1..]) + after, false))
  {
    hide NumLen, IntText, Body, IsNumber;
    var t, rest := s[..NumLen(s)], s[NumLen(s)..];
    MatchWhole(s);
    assert s == t + rest;
    NumberOnLine(t, rest, after, slash);
    IntTextNumber(vs[0]);
    NumberOnLine(IntText(vs[0]), Patch(rest, vs[1..]), after, slash);
  }

  /** Replacing the numbers of a logical line leaves its line breaks and continuations
      where they were: the patched text is a logical line again. */
  lemma {:induction false} PatchedBody(s: string, vs: seq<int>, after: string, slash: bool)
    requires |vs| == |Numbers(s)| && Body(s + after, slash) == Some(|s|)
    ensures Body(Patch(s, vs) + after, slash) == Some(|Patch(s, vs)|)
    decreases |s|
  {
    hide NumLen, IntText;
    if s == [] {
      BodyPositive(s + after, slash);
    } else if NumLen(s) > 0 {
      PatchedNumber(s, vs, after, slash);
      hide Patch, Body;
      PatchedBody(s[NumLen(s)..], vs[1..], after, false);
    } else {
      PatchedSeparator(s, vs, after, slash);
      assert s[1..] == [] ==> |Patch(s[1..], vs)| == 0;
      hide Patch, Numbers, Body, NextSlash;
      BodyStep(s + after, slash);
      BodyStep(Patch(s, vs) + after, slash);
      if s[0] != '\n' || slash { PatchedBody(s[1..], vs, after, NextSlash(s[0], slash)); }
    }
  }

  lemma PatchedSeparator(s: string, vs: seq<int>, after: string, slash: bool)
    requires s != [] && NumLen(s) == 0 && |vs| == |Numbers(s)|
    ensures (s + after)[0] == s[0] && (s + after)[1..] == s[1..] + after
    ensures |vs| == |Numbers(s[1..])| && |Patch(s, vs)| == 1 + |Patch(s[1..], vs)|
    ensures (Patch(s, vs) + after)[0] == s[0] && (Patch(s, vs) + after)[1..] == Patch(s[1..], vs) + after
  {
    hide NumLen, IntText;
    PatchOther(s, vs);
    ConsAppend(s[0], s[1..], after);
    ConsAppend(s[0], Patch(s[1..], vs), after);
    assert s == [s[0]] + s[1..];
    hide Patch, Numbers;
  }

  lemma PatchOther(s: string, vs: seq<int>)
    requires s != [] && NumLen(s) == 0 && |vs| == |Numbers(s)|
    ensures |vs| == |Numbers(s[1..])| && Patch(s, vs) == [s[0]] + Patch(s[1..], vs)
  {
    hide NumLen, IntText;
  }

  lemma ConsAppend(c: char, rest: string, after: string)
    ensures ([c] + rest + after)[0] == c && ([c] + rest + after)[1..] == rest + after
  {
  }

  // ---------------------------------------------------------------- the #define

  predicate WordChar(c: char)
  {
    'a' <= c <= 'z' || 'A' <= c <= 'Z' || Digit(c) || c == '_'
  }

  predicate White(c: char)
  {
    Blank(c) || c == '\n'
  }

  const DEFINE: string := "#define"

  /** The pattern ^#define\s+MACRO\b matches from i to e, with w bytes of white space. */
  ghost predicate DefineAt(text: string, macro: string, i: nat, w: nat, e: nat)
  {
    && w > 0 && e == i + |DEFINE| + w + |macro| && e <= |text|
    && (i == 0 || text[i - 1] == '\n')
    && text[i..i + |DEFINE|] == DEFINE
    && (forall k :: i + |DEFINE| <= k < i + |DEFINE| + w ==> White(text[k]))
    && text[i + |DEFINE| + w..e] == macro
    && (e == |text| || !WordChar(text[e]))
  }

  /** re.search: the leftmost match; e is where it ends. */
  ghost predicate FoundAt(text: string, macro: string, i: nat, w: nat, e: nat)
  {
    DefineAt(text, macro, i, w, e) && forall j: nat, v: nat, f: nat :: j < i ==> !DefineAt(text, macro, j, v, f)
  }

  ghost predicate Identifier(macro: string)
  {
    macro != [] && forall c <- macro :: WordChar(c)
  }

  lemma OneHash(text: string, macro: string, i: nat, w: nat, e: nat, k: nat)
    requires Identifier(macro) && DefineAt(text, macro, i, w, e) && i < k < e
    ensures text[k] != '#'
  {
    var m := i + |DEFINE| + w;
    if k < i + |DEFINE| {
      assert text[k] == text[i..i + |DEFINE|][k - i] == DEFINE[k - i];
      NoSecondHash(k - i);
    } else if k >= m {
      assert text[k] == text[m..e][k - m] == macro[k - m];
      assert macro[k - m] in macro;
    }
  }

  /** A match to the left of another ends before the other starts: it cannot run through
      the '#' of the other. */
  lemma EarlierEndsBefore(text: string, other: string, macro: string, i: nat, w: nat, e: nat, j: nat, v: nat, f: nat)
    requires Identifier(macro) && DefineAt(text, macro, i, w, e) && DefineAt(other, macro, j, v, f) && j < i
    requires e <= |other| && other[..e] == text[..e]
    ensures f <= i
  {
    assert text[i] == text[i..i + |DEFINE|][0] == '#';
    assert other[i] == other[..e][i] == text[..e][i] == '#';
    if i < f { OneHash(other, macro, j, v, f, i); }
  }

  lemma NoSecondHash(k: nat)
    requires 0 < k < |DEFINE|
    ensures DEFINE[k] != '#'
  {
  }

  /** Changing only what follows the match leaves it the match that is found, as long as
      no word character is put right behind it. */
  lemma FoundAgain(text: string, other: string, macro: string, i: nat, w: nat, e: nat)
    requires Identifier(macro) && FoundAt(text, macro, i, w, e)
    requires e <= |other| && other[..e] == text[..e] && (e < |other| ==> !WordChar(other[e]))
    ensures FoundAt(other, macro, i, w, e)
  {
    SameMatch(text, other, macro, i, w, e);
    forall j: nat, v: nat, f: nat | j < i
      ensures !DefineAt(other, macro, j, v, f)
    {
      if DefineAt(other, macro, j, v, f) {
        EarlierEndsBefore(text, other, macro, i, w, e, j, v, f);
        assert other[f] == other[..e][f] == text[..e][f] == text[f];
        assert other[..f] == other[..e][..f] == text[..e][..f] == text[..f];
        SameMatch(other, text, macro, j, v, f);
      }
    }
  }

  lemma SameMatch(text: string, other: string, macro: string, i: nat, w: nat, e: nat)
    requires DefineAt(text, macro, i, w, e) && e <= |other| && other[..e] == text[..e]
    requires e < |other| ==> !WordChar(other[e])
    ensures DefineAt(other, macro, i, w, e)
  {
    forall k | 0 <= k < e
      ensures other[k] == text[k]
    {
      assert other[..e][k] == text[..e][k];
    }
    assert other[i..i + |DEFINE|] == text[i..i + |DEFINE|];
    assert other[i + |DEFINE| + w..e] == text[i + |DEFINE| + w..e];
  }

  // ---------------------------------------------------------------- patch_macro

  /** patch_macro, from where the #define's match ends. */
  method PatchMacro(text: string, at: nat, vs: seq<int>) returns (r: Result<string>)
    requires at <= |text|
    ensures var n := Body(text[at..], false);
            r.Success? <==>
            n.Some? && n.value <= |text| - at && Clean(text[at..at + n.value])
            && |vs| == |Numbers(text[at..at + n.value])|
    ensures r.Success? ==>
              var n := Body(text[at..], false).value;
              r.value == text[..at] + Patch(text[at..at + n], vs) + text[at + n..]
  {
    hide Body, Patch, Numbers, Residue;
    var end := ReadDefineBody(text, at);
    if end == None { return Failure("substring not found"); }
    var body := text[at..end.value];
    if !Clean(body) { return Failure("non-numeric content"); }
    if |Numbers(body)| != |vs| { return Failure("count mismatch"); }
    var out := ReplaceNumbers(body, vs);
    r := Success(text[..at] + out + text[end.value..]);
  }

  ghost predicate LooseFirst(body: string, vs: seq<int>)
    requires |vs| == |Numbers(body)|
  {
    NumLen(body) > 0 ==> vs[0] < 0
  }

  lemma PatchedFirst(body: string, vs: seq<int>)
    requires body != [] && Clean(body) && |vs| == |Numbers(body)|
    ensures Patch(body, vs) != [] && (WordChar(Patch(body, vs)[0]) <==> !LooseFirst(body, vs))
  {
    hide NumLen, IntText;
    if NumLen(body) > 0 {
      IntTextNumber(vs[0]);
      NumberBytes(IntText(vs[0]));
    } else {
      ResidueOfSuffix(body);
    }
  }

  /** After patching, the same #define is found at the same place and its body is the
      patched body; so current_values reads vs, exactly when no two numbers merge.  The
      first number may only lose its sign if it does not touch the macro's name. */
  lemma MacroReadsBack(text: string, macro: string, i: nat, w: nat, e: nat, body: string, after: string, vs: seq<int>)
    requires Identifier(macro) && FoundAt(text, macro, i, w, e) && text[e..] == body + after
    requires Body(text[e..], false) == Some(|body|) && Clean(body) && |vs| == |Numbers(body)|
    ensures var out := text[..e] + Patch(body, vs) + after;
            && Body(out[e..], false) == Some(|Patch(body, vs)|) && out[e..e + |Patch(body, vs)|] == Patch(body, vs)
            && (Values(Patch(body, vs)) == vs <==> Merges(body, vs, false) == 0)
            && (LooseFirst(body, vs) <==> FoundAt(out, macro, i, w, e))
  {
    hide Body, Patch, Clean, Values, Merges, LooseFirst;
    var out, patched := text[..e] + Patch(body, vs) + after, Patch(body, vs);
    BodyPositive(text[e..], false);
    ReadsBackExactlyWhen(body, vs);
    PatchedBody(body, vs, after, false);
    PatchedFirst(body, vs);
    assert out[e..] == patched + after && out[..e] == text[..e] && out[e] == patched[0];
    if LooseFirst(body, vs) { FoundAgain(text, out, macro, i, w, e); }
  }
}
