/**
 The reader of libs/json/jsoncpp.cpp (class `Reader`), as functions of the input
 that is left: tokens, the decoding of strings and numbers, and the recursive
 descent with its stack limit.  `JsonCode` runs the loops in place.
 */
module JsonReader {
  import opened Numerals
  import opened Wrappers
  import opened Json

  // ------------------------------------------------------------------- tokens

  datatype Kind =
    | ObjectBegin | ObjectEnd | ArrayBegin | ArrayEnd | StringToken | NumberToken
    | TrueToken | FalseToken | NullToken | Comma | Colon | EndOfStream | ErrorToken

  /** A token: its kind, its text, and the input after it. */
  datatype Token = Token(kind: Kind, text: string, rest: string)

  predicate IsSpace(c: char) {
    c == ' ' || c == '\t' || c == '\r' || c == '\n'
  }

  function SkipSpaces(r: string): (s: string)
    ensures |s| <= |r| && (s != [] ==> !IsSpace(s[0]))
  {
    if r != [] && IsSpace(r[0]) then SkipSpaces(r[1..]) else r
  }

  /** `readString`: the characters up to the closing quote, and whether there is one. */
  function StringLength(r: string): (res: (nat, bool))
    ensures res.0 <= |r| && (res.1 ==> 0 < res.0 && r[res.0 - 1] == '"')
  {
    if r == [] then (0, false)
    else if r[0] == '\\' then
      if |r| == 1 then (1, false) else var (n, ok) := StringLength(r[2..]); (n + 2, ok)
    else if r[0] == '"' then (1, true)
    else var (n, ok) := StringLength(r[1..]); (n + 1, ok)
  }

  function DigitRun(r: string): (n: nat)
    ensures n <= |r|
  {
    if r != [] && 0 <= DigitOf(r[0]) then 1 + DigitRun(r[1..]) else 0
  }

  /** `readNumber`: the characters of a number after its first. */
  function NumberLength(r: string): (n: nat)
    ensures n <= |r|
  {
    ExponentEnd(r, FractionEnd(r, DigitRun(r)))
  }

  function FractionEnd(r: string, i: nat): (n: nat)
    requires i <= |r|
    ensures i <= n <= |r|
  {
    if i < |r| && r[i] == '.' then i + 1 + DigitRun(r[i + 1..]) else i
  }

  function ExponentEnd(r: string, i: nat): (n: nat)
    requires i <= |r|
    ensures i <= n <= |r|
  {
    if i < |r| && (r[i] == 'e' || r[i] == 'E') then
      var k := if i + 1 < |r| && (r[i + 1] == '+' || r[i + 1] == '-') then i + 2 else i + 1;
      k + DigitRun(r[k..])
    else i
  }

  /** `readToken`. */
  function ReadToken(r: string): (t: Token)
    ensures |t.rest| <= |r|
    ensures t.kind != EndOfStream ==> |t.rest| < |r|
    ensures t.kind == StringToken ==> |t.text| >= 2 && t.text[|t.text| - 1] == '"'
    ensures t.kind == NumberToken ==> t.text != []
  {
    var s := SkipSpaces(r);
    if s == [] then Token(EndOfStream, [], []) else FirstToken(s)
  }

  /** The token that begins with a character that is no space. */
  function FirstToken(s: string): (t: Token)
    requires s != []
    ensures |t.rest| < |s|
    ensures t.kind == StringToken ==> |t.text| >= 2 && t.text[|t.text| - 1] == '"'
    ensures t.kind == NumberToken ==> t.text != []
  {
    var c, t := s[0], s[1..];
    if c == '"' then
      var (n, ok) := StringLength(t);
      Token(if ok then StringToken else ErrorToken, s[..n + 1], t[n..])
    else if 0 <= DigitOf(c) || c == '-' then
      var n := NumberLength(t);
      Token(NumberToken, s[..n + 1], t[n..])
    else if c == 't' then Word(s, "true", TrueToken)
    else if c == 'f' then Word(s, "false", FalseToken)
    else if c == 'n' then Word(s, "null", NullToken)
    else Token(SimpleKind(c), [c], t)
  }

  /** The tokens of one character; any other character is an error. */
  function SimpleKind(c: char): (k: Kind)
    ensures k != StringToken && k != NumberToken
  {
    if c == '{' then ObjectBegin
    else if c == '}' then ObjectEnd
    else if c == '[' then ArrayBegin
    else if c == ']' then ArrayEnd
    else if c == ',' then Comma
    else if c == ':' then Colon
    else if c == '\0' then EndOfStream
    else ErrorToken
  }

  /** `match`: the rest of a literal after its first character, or an error after that character. */
  function Word(s: string, word: string, kind: Kind): (t: Token)
    requires s != [] && word != [] && kind in {TrueToken, FalseToken, NullToken}
    ensures |t.rest| < |s| && t.kind in {kind, ErrorToken}
  {
    if word <= s then Token(kind, word, s[|word|..]) else Token(ErrorToken, s[..1], s[1..])
  }

  // ------------------------------------------------------------------ strings

  function HexValue(c: char): (d: int)
    ensures -1 <= d < 16
  {
    if '0' <= c <= '9' then (c - '0') as int
    else if 'a' <= c <= 'f' then (c - 'a') as int + 10
    else if 'A' <= c <= 'F' then (c - 'A') as int + 10
    else -1
  }

  /** `decodeUnicodeEscapeSequence`: four hexadecimal digits. */
  function HexQuad(b: string): (u: Option<nat>)
    ensures u.Some? ==> |b| >= 4 && u.value < 0x10000
  {
    if |b| < 4 then None
    else
      var d0, d1, d2, d3 := HexValue(b[0]), HexValue(b[1]), HexValue(b[2]), HexValue(b[3]);
      if d0 < 0 || d1 < 0 || d2 < 0 || d3 < 0 then None
      else Some(((d0 * 16 + d1) * 16 + d2) * 16 + d3)
  }

  /** `decodeUnicodeCodePoint`: one escape, or the two of a surrogate pair; and how many characters it took. */
  function CodePoint(b: string): (u: Option<(nat, nat)>)
    ensures u.Some? ==> u.value.1 <= |b| && u.value.0 <= 0x10FFFF
  {
    match HexQuad(b)
    case None => None
    case Some(hi) =>
      if 0xD800 <= hi <= 0xDBFF then
        if |b| < 10 || b[4] != '\\' || b[5] != 'u' then None
        else match HexQuad(b[6..])
        case None => None
        case Some(lo) => Some((0x10000 + hi % 0x400 * 0x400 + lo % 0x400, 10))
      else Some((hi, 4))
  }

  /** `codePointToUTF8`. */
  function Utf8(cp: nat): string
    requires cp <= 0x10FFFF
  {
    var s6 := cp / 0x40; // cp >> 6, cp >> 12, cp >> 18
    var s12 := s6 / 0x40;
    var s18 := s12 / 0x40;
    if cp <= 0x7F then [cp as char]
    else if cp <= 0x7FF then [(0xC0 + s6) as char, (0x80 + cp % 0x40) as char]
    else if cp <= 0xFFFF then [(0xE0 + s12) as char, (0x80 + s6 % 0x40) as char, (0x80 + cp % 0x40) as char]
    else [(0xF0 + s18) as char, (0x80 + s12 % 0x40) as char, (0x80 + s6 % 0x40) as char, (0x80 + cp % 0x40) as char]
  }

  function SimpleEscape(e: char): Option<char> {
    if e == '"' || e == '/' || e == '\\' then Some(e)
    else if e == 'b' then Some(8 as char)
    else if e == 'f' then Some(12 as char)
    else if e == 'n' then Some('\n')
    else if e == 'r' then Some('\r')
    else if e == 't' then Some('\t')
    else None
  }

  function Prepend(s: string, r: Option<string>): Option<string> {
    match r
    case None => None
    case Some(t) => Some(s + t)
  }

  /** `decodeString`, between the quotes. */
  function DecodeBody(b: string): Option<string> {
    if b == [] || b[0] == '"' then Some([])
    else if b[0] != '\\' then Prepend([b[0]], DecodeBody(b[1..]))
    else if |b| == 1 then None
    else if b[1] == 'u' then
      match CodePoint(b[2..])
      case None => None
      case Some((cp, n)) => Prepend(Utf8(cp), DecodeBody(b[2 + n..]))
    else
      match SimpleEscape(b[1])
      case None => None
      case Some(c) => Prepend([c], DecodeBody(b[2..]))
  }

  function DecodeString(text: string): Option<string>
    requires |text| >= 2
  {
    DecodeBody(text[1..|text| - 1])
  }

  // ------------------------------------------------------------------ numbers

  /** The loop of `decodeNumber`: the digits as an integer of at most max, or none. */
  function DecodeDigits(ds: string, value: nat, max: nat): Option<nat> {
    if ds == [] then Some(value)
    else
      var d := DigitOf(ds[0]);
      if d < 0 then None
      else if value >= max / 10 && (value > max / 10 || |ds| > 1 || d > max % 10) then None
      else DecodeDigits(ds[1..], value * 10 + d, max)
  }

  /** `decodeNumber`; a number that is no 64-bit integer is left as text for the stream extraction. */
  function DecodeNumber(text: string): JValue
    requires text != []
  {
    var negative := text[0] == '-';
    match DecodeDigits(if negative then text[1..] else text, 0, if negative then MAX_INT64 + 1 else MAX_UINT64)
    case None => JReal(text)
    case Some(n) => if negative then JInt(-(n as int)) else Retagged(n)
  }

  // ------------------------------------------------------------------- values

  const STACK_LIMIT: nat := 1000

  /** The outcome of reading: a value and the input after it, a syntax error, or the exception of the stack limit. */
  datatype Result<+T> = Done(value: T, rest: string) | SyntaxError | StackLimit

  /** `Value::operator[]` on an object: the member is replaced or inserted in key order. */
  function Insert(ms: seq<Member>, name: string, v: JValue): seq<Member> {
    if ms == [] then [Member(name, v)]
    else if ms[0].name == name then [Member(name, v)] + ms[1..]
    else if KeyLess(ms[0].name, name) then [ms[0]] + Insert(ms[1..], name, v)
    else [Member(name, v)] + ms
  }

  /** Which texts the stream extraction of a double accepts is not modelled: it is a parameter. */
  type Doubles = string -> bool

  /** `readValue` at a nesting depth. */
  function ReadValue(r: string, depth: nat, dbl: Doubles): (res: Result<JValue>)
    ensures res.Done? ==> |res.rest| < |r|
    decreases |r|, 2
  {
    if depth >= STACK_LIMIT then StackLimit
    else
      var t := ReadToken(r);
      match t.kind
      case ObjectBegin => ReadMembers(t.rest, depth + 1, dbl, [], [])
      case ArrayBegin =>
        var s := SkipSpaces(t.rest);
        if s != [] && s[0] == ']' then Done(JArray([]), s[1..])
        else ReadItems(s, depth + 1, dbl, [])
      case NumberToken =>
        var v := DecodeNumber(t.text);
        if v.JReal? && !dbl(t.text) then SyntaxError else Done(v, t.rest)
      case StringToken =>
        (match DecodeString(t.text)
         case None => SyntaxError
         case Some(s) => Done(JString(s), t.rest))
      case TrueToken => Done(JBool(true), t.rest)
      case FalseToken => Done(JBool(false), t.rest)
      case NullToken => Done(JNull, t.rest)
      case _ => SyntaxError
  }

  /** The loop of `readArray`. */
  function ReadItems(r: string, depth: nat, dbl: Doubles, items: seq<JValue>): (res: Result<JValue>)
    ensures res.Done? ==> |res.rest| < |r|
    decreases |r|, 3
  {
    match ReadValue(r, depth, dbl)
    case SyntaxError => SyntaxError
    case StackLimit => StackLimit
    case Done(v, rest) =>
      var t := ReadToken(rest);
      if t.kind == ArrayEnd then Done(JArray(items + [v]), t.rest)
      else if t.kind == Comma then ReadItems(t.rest, depth, dbl, items + [v])
      else SyntaxError
  }

  /** The loop of `readObject`; an end right after a comma is accepted when the last name was empty. */
  function ReadMembers(r: string, depth: nat, dbl: Doubles, ms: seq<Member>, last: string): (res: Result<JValue>)
    ensures res.Done? ==> |res.rest| < |r|
    decreases |r|, 1
  {
    var t := ReadToken(r);
    if t.kind == ObjectEnd && last == [] then Done(JObject(ms), t.rest)
    else if t.kind != StringToken then SyntaxError
    else match DecodeString(t.text)
    case None => SyntaxError
    case Some(name) =>
      var colon := ReadToken(t.rest);
      if colon.kind != Colon then SyntaxError
      else match ReadValue(colon.rest, depth, dbl)
      case SyntaxError => SyntaxError
      case StackLimit => StackLimit
      case Done(v, rest) =>
        var e := ReadToken(rest);
        var ms1 := Insert(ms, name, v);
        if e.kind == ObjectEnd then Done(JObject(ms1), e.rest)
        else if e.kind == Comma then ReadMembers(e.rest, depth, dbl, ms1, name)
        else SyntaxError
  }

  /** `parse`: one value; what follows it is not looked at (the default features). */
  function Parse(doc: string, dbl: Doubles): Result<JValue> {
    ReadValue(doc, 0, dbl)
  }
}
