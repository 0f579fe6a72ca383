/** The JSON reader and writer of the C++ gateway (json.cpp) as functions. */
module Json {
  import opened Wrappers

  /* A string is a sequence of bytes, one char (below 256) each.  Writing and reading are
     functions on whole texts here; JsonParser has the reader that moves a pointer and
     JsonWriter the writer that appends, and they prove that they compute these functions. */

  datatype Member<T> = Member(key: string, value: T)

  /** Num is a number spelled as an integer within 9e15; any other number is kept as its
      spelling.  An object is a std::map: members in increasing byte order of keys. */
  datatype Value =
    | Null
    | Bool(b: bool)
    | Num(n: int)
    | Real(spelling: string)
    | Str(s: string)
    | Arr(items: seq<Value>)
    | Obj(members: seq<Member<Value>>)

  /** Ok: the value read and how many bytes it took. */
  datatype Read<T> = Ok(value: T, n: nat) | Bad(msg: string)

  const BIGGEST: int := 9_000_000_000_000_000

  function Skip<T>(k: nat, r: Read<T>): Read<T>
  {
    match r
    case Ok(v, n) => Ok(v, k + n)
    case Bad(m) => r
  }

  // ---------------------------------------------------------------- objects

  /** std::string's operator<, byte by byte. */
  predicate Less(a: string, b: string)
  {
    b != [] && (a == [] || a[0] < b[0] || (a[0] == b[0] && Less(a[1..], b[1..])))
  }

  /** object[key] = value */
  function Insert<T>(ms: seq<Member<T>>, key: string, value: T): (r: seq<Member<T>>)
  {
    if ms == [] || Less(key, ms[0].key) then [Member(key, value)] + ms
    else if ms[0].key == key then [Member(key, value)] + ms[1..]
    else [ms[0]] + Insert(ms[1..], key, value)
  }

  function Find<T>(ms: seq<Member<T>>, key: string): Option<T>
  {
    if ms == [] then None else if ms[0].key == key then Some(ms[0].value) else Find(ms[1..], key)
  }

  ghost predicate Sorted<T>(ms: seq<Member<T>>)
  {
    forall i, j :: 0 <= i < j < |ms| ==> Less(ms[i].key, ms[j].key)
  }

  // ---------------------------------------------------------------- writing

  function Hex(d: nat): char
    requires d < 16
  {
    "0123456789abcdef"[d]
  }

  function EscapeChar(c: char): string
  {
    if c == '"' then "\\\""
    else if c == '\\' then "\\\\"
    else if c == '\n' then "\\n"
    else if c == '\r' then "\\r"
    else if c == '\t' then "\\t"
    else if c == 8 as char then "\\b"
    else if c == 12 as char then "\\f"
    else if c < ' ' then "\\u00" + [Hex(c as nat / 16), Hex(c as nat % 16)]
    else [c]
  }

  function EscapeBody(s: string): string
  {
    if s == [] then "" else EscapeChar(s[0]) + EscapeBody(s[1..])
  }

  function Escape(s: string): string
  {
    "\"" + EscapeBody(s) + "\""
  }

  function NatText(n: nat): string
  {
    if n < 10 then [Hex(n)] else NatText(n / 10) + [Hex(n % 10)]
  }

  function IntText(n: int): string
  {
    if n < 0 then "-" + NatText(-n) else NatText(n)
  }

  function Join(texts: seq<string>): string
  {
    if texts == [] then ""
    else if |texts| == 1 then texts[0]
    else texts[0] + "," + Join(texts[1..])
  }

  /** A value dump can be asked for: its numbers are integers within 9e15 and its
      objects are maps. */
  ghost predicate Printable(v: Value)
  {
    match v
    case Num(n) => -BIGGEST <= n <= BIGGEST
    case Real(_) => false
    case Arr(items) => forall i :: 0 <= i < |items| ==> Printable(items[i])
    case Obj(ms) => Sorted(ms) && forall i :: 0 <= i < |ms| ==> Printable(ms[i].value)
    case _ => true
  }

  function Dump(v: Value): string
    requires Printable(v)
  {
    match v
    case Null => "null"
    case Bool(b) => if b then "true" else "false"
    case Num(n) => IntText(n)
    case Str(s) => Escape(s)
    case Arr(items) => "[" + Join(ItemTexts(items)) + "]"
    case Obj(ms) => "{" + Join(MemberTexts(ms)) + "}"
  }

  function ItemTexts(items: seq<Value>): (r: seq<string>)
    requires forall i :: 0 <= i < |items| ==> Printable(items[i])
    ensures |r| == |items|
  {
    seq(|items|, i requires 0 <= i < |items| => Dump(items[i]))
  }

  function Entry(key: string, text: string): string
  {
    Escape(key) + ":" + text
  }

  function MemberTexts(ms: seq<Member<Value>>): (r: seq<string>)
    requires forall i :: 0 <= i < |ms| ==> Printable(ms[i].value)
    ensures |r| == |ms|
  {
    seq(|ms|, i requires 0 <= i < |ms| => Entry(ms[i].key, Dump(ms[i].value)))
  }

  // ---------------------------------------------------------------- reading strings

  predicate Space(c: char)
  {
    c == ' ' || c == '\t' || c == '\n' || c == '\r'
  }

  /** How many bytes of white space s starts with. */
  function Spaces(s: string): (n: nat)
    ensures n <= |s| && (n < |s| ==> !Space(s[n]))
    ensures forall i :: 0 <= i < n ==> Space(s[i])
  {
    if s == [] || !Space(s[0]) then 0 else 1 + Spaces(s[1..])
  }

  function HexValue(c: char): (r: Option<nat>)
    ensures r.Some? ==> r.value < 16
  {
    if '0' <= c <= '9' then Some(c as nat - '0' as nat)
    else if 'a' <= c <= 'f' then Some(c as nat - 'a' as nat + 10)
    else if 'A' <= c <= 'F' then Some(c as nat - 'A' as nat + 10)
    else None
  }

  /** UTF-8 of a code point of the basic plane. */
  function Utf8(cp: nat): string
    requires cp < 0x10000
  {
    if cp < 0x80 then [cp as char]
    else if cp < 0x800 then [(0xC0 + cp / 64) as char, (0x80 + cp % 64) as char]
    else [(0xE0 + cp / 4096) as char, (0x80 + cp / 64 % 64) as char, (0x80 + cp % 64) as char]
  }

  /** What a UTF-8 decoder makes of the bytes of one code point (section 3 of RFC 3629). */
  function CodePoint(s: string): Option<nat>
  {
    if |s| == 1 && s[0] as int < 128 then Some(s[0] as nat)
    else if |s| == 2 && 192 <= s[0] as int < 224 && Continues(s[1]) then
      Some((s[0] as int - 192) * 64 + (s[1] as int - 128))
    else if |s| == 3 && 224 <= s[0] as int < 240 && Continues(s[1]) && Continues(s[2]) then
      Some((s[0] as int - 224) * 4096 + (s[1] as int - 128) * 64 + (s[2] as int - 128))
    else None
  }

  predicate Continues(c: char)
  {
    128 <= c as int < 192
  }

  lemma Utf8Decodes(cp: nat)
    requires cp < 0x10000
    ensures CodePoint(Utf8(cp)) == Some(cp)
    ensures |Utf8(cp)| == if cp < 128 then 1 else if cp < 2048 then 2 else 3
  {
  }

  function ReadHex(s: string): (r: Read<nat>)
    ensures r.Ok? ==> r.n == 4 <= |s| && r.value < 0x10000
    ensures r.Bad? ==> r.msg != ""
  {
    if |s| < 4 then Bad("bad \\u")
    else
      match (HexValue(s[0]), HexValue(s[1]), HexValue(s[2]), HexValue(s[3]))
      case (Some(a), Some(b), Some(c), Some(d)) => Ok(((a * 16 + b) * 16 + c) * 16 + d, 4)
      case _ => Bad("bad \\u hex")
  }

  /** What follows a backslash. */
  function ReadEscape(s: string): (r: Read<string>)
    ensures r.Ok? ==> 0 < r.n <= |s|
    ensures r.Bad? ==> r.msg != ""
  {
    if s == [] then Bad("bad escape")
    else match s[0]
      case '"' => Ok("\"", 1)
      case '\\' => Ok("\\", 1)
      case '/' => Ok("/", 1)
      case 'b' => Ok([8 as char], 1)
      case 'f' => Ok([12 as char], 1)
      case 'n' => Ok("\n", 1)
      case 'r' => Ok("\r", 1)
      case 't' => Ok("\t", 1)
      case 'u' => (match ReadHex(s[1..]) case Ok(cp, n) => Ok(Utf8(cp), 1 + n) case Bad(m) => Bad(m))
      case _ => Bad("bad escape char")
  }

  function Prepend(prefix: string, k: nat, r: Read<string>): Read<string>
  {
    match r
    case Ok(v, n) => Ok(prefix + v, k + n)
    case Bad(m) => r
  }

  /** The rest of a string, up to and with the closing quote. */
  function ReadBody(s: string): (r: Read<string>)
    ensures r.Ok? ==> 0 < r.n <= |s|
    ensures r.Bad? ==> r.msg != ""
  {
    if s == [] then Bad("unterminated string")
    else if s[0] == '"' then Ok("", 1)
    else if s[0] == '\\' then
      match ReadEscape(s[1..])
      case Ok(v, n) => Prepend(v, 1 + n, ReadBody(s[1 + n..]))
      case Bad(m) => Bad(m)
    else if s[0] < ' ' then Bad("control char in string")
    else Prepend([s[0]], 1, ReadBody(s[1..]))
  }

  function ReadString(s: string): (r: Read<string>)
    ensures r.Ok? ==> 0 < r.n <= |s|
    ensures r.Bad? ==> r.msg != ""
  {
    if s == [] || s[0] != '"' then Bad("expected string") else Skip(1, ReadBody(s[1..]))
  }

  // ---------------------------------------------------------------- reading numbers

  predicate Digit(c: char)
  {
    '0' <= c <= '9'
  }

  predicate NumChar(c: char)
  {
    Digit(c) || c == '-' || c == '+' || c == '.' || c == 'e' || c == 'E'
  }

  /** How many of the bytes a number may contain s starts with. */
  function Run(s: string): (n: nat)
    ensures n <= |s| && (n < |s| ==> !NumChar(s[n]))
    ensures forall i :: 0 <= i < n ==> NumChar(s[i])
  {
    if s == [] || !NumChar(s[0]) then 0 else 1 + Run(s[1..])
  }

  function Digits(s: string): (n: nat)
    ensures n <= |s| && (n < |s| ==> !Digit(s[n]))
    ensures forall i :: 0 <= i < n ==> Digit(s[i])
  {
    if s == [] || !Digit(s[0]) then 0 else 1 + Digits(s[1..])
  }

  function Sign(s: string): (n: nat)
    ensures n <= |s|
  {
    if s != [] && (s[0] == '-' || s[0] == '+') then 1 else 0
  }

  /** A decimal exponent counts only if it has digits. */
  function Exponent(s: string): (n: nat)
    ensures n <= |s|
  {
    if s == [] || (s[0] != 'e' && s[0] != 'E') then 0
    else
      var d := Digits(s[1 + Sign(s[1..])..]);
      if d == 0 then 0 else 1 + Sign(s[1..]) + d
  }

  /** Point and digits after it. */
  function Fraction(s: string): (n: nat)
    ensures n <= |s|
  {
    if s == [] || s[0] != '.' then 0 else 1 + Digits(s[1..])
  }

  /** What follows the integer digits. */
  function NumberTail(s: string): (n: nat)
    ensures n <= |s|
  {
    Fraction(s) + Exponent(s[Fraction(s)..])
  }

  /** Sign and integer digits. */
  function NumberHead(s: string): (n: nat)
    ensures n <= |s|
  {
    Sign(s) + Digits(s[Sign(s)..])
  }

  /** strtod: the length of the longest prefix that is a number, 0 if there is none. */
  function NumberPrefix(s: string): (n: nat)
    ensures n <= |s|
  {
    var h := NumberHead(s);
    if h == Sign(s) && Fraction(s[h..]) <= 1 then 0 else h + NumberTail(s[h..])
  }

  function DigitValue(c: char): (d: nat)
    requires Digit(c)
    ensures d < 10
  {
    c as int - '0' as int
  }

  function Decimal(s: string): nat
    requires forall i :: 0 <= i < |s| ==> Digit(s[i])
  {
    if s == [] then 0 else Decimal(s[..|s| - 1]) * 10 + DigitValue(s[|s| - 1])
  }

  function Signed(s: string): int
    requires Digits(s[Sign(s)..]) == |s| - Sign(s)
  {
    var t := s[Sign(s)..];
    assert forall i :: 0 <= i < |t| ==> Digit(t[i]);
    if s != [] && s[0] == '-' then -(Decimal(t) as int) else Decimal(t)
  }

  /** strtod's value: the empty prefix gives 0. */
  function NumberValue(s: string): (v: Value)
    ensures v.Num? || v.Real?
  {
    if Digits(s[Sign(s)..]) == |s| - Sign(s) && -BIGGEST <= Signed(s) <= BIGGEST then Num(Signed(s)) else Real(s)
  }

  function ReadNumber(s: string): (r: Read<Value>)
    ensures r.Ok? && r.n <= |s|
  {
    var token := s[..Run(s)];
    var n := NumberPrefix(token);
    Ok(NumberValue(token[..n]), n)
  }

  // ---------------------------------------------------------------- reading values

  function ReadLiteral(s: string, word: string, v: Value): (r: Read<Value>)
    ensures r.Ok? ==> r.n <= |s|
    ensures r.Bad? ==> r.msg != ""
  {
    if word <= s then Ok(v, |word|) else Bad("bad literal")
  }

  function ReadValue(s: string): (r: Read<Value>)
    ensures r.Ok? ==> r.n <= |s|
    ensures r.Bad? ==> r.msg != ""
    decreases |s|, 1
  {
    Skip(Spaces(s), ReadToken(s[Spaces(s)..]))
  }

  /** A value at the start of s. */
  function ReadToken(s: string): (r: Read<Value>)
    ensures r.Ok? ==> r.n <= |s|
    ensures r.Bad? ==> r.msg != ""
    decreases |s|, 0
  {
    if s == [] then Bad("empty input")
    else if s[0] == '{' then
      var k := 1 + Spaces(s[1..]);
      if k < |s| && s[k] == '}' then Ok(Obj([]), k + 1) else Skip(k, ReadMembers(s[k..], []))
    else if s[0] == '[' then
      var k := 1 + Spaces(s[1..]);
      if k < |s| && s[k] == ']' then Ok(Arr([]), k + 1) else Skip(k, ReadItems(s[k..], []))
    else if s[0] == '"' then
      match ReadString(s) case Ok(v, n) => Ok(Str(v), n) case Bad(m) => Bad(m)
    else if s[0] == 't' then ReadLiteral(s, "true", Bool(true))
    else if s[0] == 'f' then ReadLiteral(s, "false", Bool(false))
    else if s[0] == 'n' then ReadLiteral(s, "null", Null)
    else if s[0] == '-' || Digit(s[0]) then ReadNumber(s)
    else Bad("unexpected char")
  }

  /** A value and the white space after it. */
  function ReadElement(s: string): (r: Read<Value>)
    ensures r.Ok? ==> r.n <= |s|
    ensures r.Bad? ==> r.msg != ""
    decreases |s|, 2
  {
    match ReadValue(s)
    case Ok(v, n) => Ok(v, n + Spaces(s[n..]))
    case Bad(m) => Bad(m)
  }

  /** The elements of an array from here on, after those in acc. */
  function ReadItems(s: string, acc: seq<Value>): (r: Read<Value>)
    ensures r.Ok? ==> 0 < r.n <= |s|
    ensures r.Bad? ==> r.msg != ""
    decreases |s|, 3
  {
    if s == [] then Bad("unterminated array")
    else
      match ReadElement(s)
      case Bad(m) => Bad(m)
      case Ok(v, k) =>
        if k < |s| && s[k] == ',' then Skip(k + 1, ReadItems(s[k + 1..], acc + [v]))
        else if k < |s| && s[k] == ']' then Ok(Arr(acc + [v]), k + 1)
        else Bad("expected ',' or ']'")
  }

  /** One element and what follows it. */
  lemma ItemsUnfold(s: string, acc: seq<Value>, v: Value, k: nat)
    requires ReadElement(s) == Ok(v, k) && s != []
    ensures ReadItems(s, acc) ==
            if k < |s| && s[k] == ',' then Skip(k + 1, ReadItems(s[k + 1..], acc + [v]))
            else if k < |s| && s[k] == ']' then Ok(Arr(acc + [v]), k + 1)
            else Bad("expected ',' or ']'")
  {
    hide ReadElement, Skip;
  }

  /** A key and its colon. */
  function ReadKey(s: string): (r: Read<string>)
    ensures r.Ok? ==> 0 < r.n <= |s|
    ensures r.Bad? ==> r.msg != ""
  {
    var w := Spaces(s);
    match ReadString(s[w..])
    case Bad(m) => Bad(m)
    case Ok(key, n) =>
      var k := w + n + Spaces(s[w + n..]);
      if k < |s| && s[k] == ':' then Ok(key, k + 1) else Bad("expected ':'")
  }

  /** The members of an object from here on, after those in acc. */
  function ReadMembers(s: string, acc: seq<Member<Value>>): (r: Read<Value>)
    ensures r.Ok? ==> 0 < r.n <= |s|
    ensures r.Bad? ==> r.msg != ""
    decreases |s|, 3
  {
    if s == [] then Bad("unterminated object")
    else
      match ReadKey(s)
      case Bad(m) => Bad(m)
      case Ok(key, a) => Skip(a, ReadRest(s[a..], acc, key))
  }

  /** The value of a key just read, and the members after it. */
  function ReadRest(s: string, acc: seq<Member<Value>>, key: string): (r: Read<Value>)
    ensures r.Ok? ==> r.n <= |s|
    ensures r.Bad? ==> r.msg != ""
    decreases |s|, 4
  {
    match ReadElement(s)
    case Bad(m) => Bad(m)
    case Ok(v, k) =>
      if k < |s| && s[k] == ',' then Skip(k + 1, ReadMembers(s[k + 1..], Insert(acc, key, v)))
      else if k < |s| && s[k] == '}' then Ok(Obj(Insert(acc, key, v)), k + 1)
      else Bad("expected ',' or '}'")
  }

  /** parse: one value and nothing but white space after it. */
  function Parse(text: string): (r: Read<Value>)
    ensures r.Ok? ==> r.n <= |text|
    ensures r.Bad? ==> r.msg != ""
  {
    match ReadValue(text)
    case Bad(m) => Bad(m)
    case Ok(v, n) => if n + Spaces(text[n..]) == |text| then Ok(v, n) else Bad("trailing characters")
  }
}
