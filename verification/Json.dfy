/**
 JSON values and the text `FastWriter` gives them (libs/json/jsoncpp.cpp).
 Characters stand for bytes.
 */
module Json {
  import opened Numerals

  // ------------------------------------------------------------------- values

  /** `Json::Value`.  An object lists its members in the order of the map that holds them. */
  datatype JValue =
    | JNull
    | JBool(b: bool)
    | JInt(i: int)
    | JUInt(u: nat)
    | JReal(lexeme: string)
    | JString(s: string)
    | JArray(items: seq<JValue>)
    | JObject(members: seq<Member>)

  datatype Member = Member(name: string, value: JValue)

  const MAX_INT: int := 0x7FFF_FFFF
  const MAX_INT64: int := 0x7FFF_FFFF_FFFF_FFFF
  const MAX_UINT64: int := 0xFFFF_FFFF_FFFF_FFFF

  /** The order of keys: bytes first, then length (`CZString::operator<`). */
  predicate KeyLess(a: string, b: string) {
    b != [] && (a == [] || a[0] < b[0] || (a[0] == b[0] && KeyLess(a[1..], b[1..])))
  }

  lemma {:induction false} KeyLessIrreflexive(a: string)
    ensures !KeyLess(a, a)
  {
    if a != [] {
      KeyLessIrreflexive(a[1..]);
    }
  }

  predicate Sorted(ms: seq<Member>) {
    forall i, j :: 0 <= i < j < |ms| ==> KeyLess(ms[i].name, ms[j].name)
  }

  /** What the writer is given: integers of 64 bits.  A double stands by its text. */
  predicate Writable(v: JValue) {
    match v
    case JInt(i) => -MAX_INT64 - 1 <= i <= MAX_INT64
    case JUInt(u) => u <= MAX_UINT64
    case JArray(items) => forall i :: 0 <= i < |items| ==> Writable(items[i])
    case JObject(ms) => forall i :: 0 <= i < |ms| ==> Writable(ms[i].value)
    case _ => true
  }

  lemma {:induction false} WellFormedWritable(v: JValue)
    requires WellFormed(v)
    ensures Writable(v)
  {
    match v
    case JArray(items) =>
      forall i | 0 <= i < |items| ensures Writable(items[i]) {
        WellFormedWritable(items[i]);
      }
    case JObject(ms) =>
      forall i | 0 <= i < |ms| ensures Writable(ms[i].value) {
        WellFormedWritable(ms[i].value);
      }
    case _ =>
  }

  /** The trees the round trip speaks of: 64-bit integers, any strings, no doubles. */
  predicate WellFormed(v: JValue) {
    match v
    case JInt(i) => -MAX_INT64 - 1 <= i <= MAX_INT64
    case JUInt(u) => u <= MAX_UINT64
    case JReal(_) => false
    case JArray(items) => forall i :: 0 <= i < |items| ==> WellFormed(items[i])
    case JObject(ms) => Sorted(ms) && forall i :: 0 <= i < |ms| ==> WellFormed(ms[i].value)
    case _ => true
  }

  /** Nested at most d deep, a scalar counting one. */
  predicate Fits(v: JValue, d: nat)
    decreases v
  {
    d > 0 &&
    match v
    case JArray(items) => forall i :: 0 <= i < |items| ==> Fits(items[i], d - 1)
    case JObject(ms) => forall i :: 0 <= i < |ms| ==> Fits(ms[i].value, d - 1)
    case _ => true
  }

  // --------------------------------------------------------------------- text

  /** The value of a decimal digit; -1 for any other character. */
  function DigitOf(c: char): int {
    if IsDigit(c, 10) then CharDigit(c) else -1
  }

  function IntText(i: int): string {
    SignedText(i, 10)
  }

  /** The control characters that get a `\u` escape. */
  predicate IsControl(c: char) {
    c as int <= 0x1F
  }

  /** What one character becomes inside quotes. */
  function EscapeChar(c: char): (s: string)
    ensures s != []
  {
    if c == '"' then "\\\""
    else if c == '\\' then "\\\\"
    else if c == 8 as char then "\\b"
    else if c == 12 as char then "\\f"
    else if c == '\n' then "\\n"
    else if c == '\r' then "\\r"
    else if c == '\t' then "\\t"
    else if IsControl(c) then "\\u00" + [DigitChar(c as int / 16), DigitChar(c as int % 16)]
    else [c]
  }

  function Escape(s: string): string {
    if s == [] then [] else EscapeChar(s[0]) + Escape(s[1..])
  }

  /** `valueToQuotedStringN`. */
  function Quoted(s: string): string {
    "\"" + Escape(s) + "\""
  }

  /** `FastWriter::writeValue`. */
  function Text(v: JValue): string
    decreases v, 1
  {
    match v
    case JNull => "null"
    case JBool(b) => if b then "true" else "false"
    case JInt(i) => IntText(i)
    case JUInt(u) => NatText(u, 10)
    case JReal(lexeme) => lexeme
    case JString(s) => Quoted(s)
    case JArray(items) => "[" + ItemsText(items) + "]"
    case JObject(ms) => "{" + MembersText(ms) + "}"
  }

  function ItemsText(items: seq<JValue>): string
    decreases items, 0
  {
    if items == [] then []
    else if |items| == 1 then Text(items[0])
    else Text(items[0]) + "," + ItemsText(items[1..])
  }

  function MembersText(ms: seq<Member>): string
    decreases ms, 0
  {
    if ms == [] then []
    else if |ms| == 1 then MemberText(ms[0])
    else MemberText(ms[0]) + "," + MembersText(ms[1..])
  }

  function MemberText(m: Member): string
    decreases m, 0
  {
    Quoted(m.name) + ":" + Text(m.value)
  }

  /** `FastWriter::write`. */
  function Document(v: JValue): string {
    Text(v) + "\n"
  }

  // ------------------------------------------------------- up to the int tag

  /** The tag the reader gives a number: signed when it fits 32 bits or is negative. */
  function Retagged(n: int): JValue {
    if n <= MAX_INT then JInt(n) else JUInt(n)
  }

  /** The tree with each integer retagged. */
  function Norm(v: JValue): JValue
    decreases v, 1
  {
    match v
    case JInt(i) => Retagged(i)
    case JUInt(u) => Retagged(u)
    case JArray(items) => JArray(NormItems(items))
    case JObject(ms) => JObject(NormMembers(ms))
    case _ => v
  }

  function NormItems(items: seq<JValue>): (r: seq<JValue>)
    ensures |r| == |items|
    decreases items, 0
  {
    if items == [] then [] else [Norm(items[0])] + NormItems(items[1..])
  }

  function NormMembers(ms: seq<Member>): (r: seq<Member>)
    ensures |r| == |ms| && forall i :: 0 <= i < |ms| ==> r[i].name == ms[i].name
    decreases ms, 0
  {
    if ms == [] then [] else [Member(ms[0].name, Norm(ms[0].value))] + NormMembers(ms[1..])
  }

  /** A value that is a given integer, whatever its tag. */
  predicate IsInteger(v: JValue, n: int) {
    (v.JInt? && v.i == n) || (v.JUInt? && v.u == n)
  }

  /** Two trees of one shape with equal names, texts and numbers; only the tag of an integer may differ. */
  predicate SameTree(v: JValue, w: JValue)
    decreases v
  {
    match v
    case JInt(i) => IsInteger(w, i)
    case JUInt(u) => IsInteger(w, u)
    case JArray(items) =>
      w.JArray? && |w.items| == |items| && forall i :: 0 <= i < |items| ==> SameTree(items[i], w.items[i])
    case JObject(ms) =>
      && w.JObject? && |w.members| == |ms|
      && forall i :: 0 <= i < |ms| ==> ms[i].name == w.members[i].name && SameTree(ms[i].value, w.members[i].value)
    case _ => w == v
  }

  /** Every integer is tagged signed if it is at most 2^31 - 1, and unsigned otherwise. */
  predicate ReaderTags(v: JValue) {
    match v
    case JInt(i) => i < 0x8000_0000
    case JUInt(u) => u >= 0x8000_0000
    case JArray(items) => forall i :: 0 <= i < |items| ==> ReaderTags(items[i])
    case JObject(ms) => forall i :: 0 <= i < |ms| ==> ReaderTags(ms[i].value)
    case _ => true
  }

  lemma RetaggedIs(n: int)
    ensures IsInteger(Retagged(n), n) && ReaderTags(Retagged(n))
  {
  }

  lemma {:induction false} NormItemAt(items: seq<JValue>, i: nat)
    requires i < |items|
    ensures NormItems(items)[i] == Norm(items[i])
  {
    if i > 0 {
      NormItemAt(items[1..], i - 1);
    }
  }

  lemma {:induction false} NormMemberAt(ms: seq<Member>, i: nat)
    requires i < |ms|
    ensures NormMembers(ms)[i] == Member(ms[i].name, Norm(ms[i].value))
  {
    if i > 0 {
      NormMemberAt(ms[1..], i - 1);
    }
  }

  /** Retagging keeps the tree. */
  lemma {:induction false} NormSame(v: JValue)
    ensures SameTree(v, Norm(v)) && ReaderTags(Norm(v))
  {
    hide Retagged, NormItems, NormMembers;
    match v
    case JInt(i) => RetaggedIs(i);
    case JUInt(u) => RetaggedIs(u);
    case JArray(items) =>
      forall i | 0 <= i < |items|
        ensures SameTree(items[i], NormItems(items)[i]) && ReaderTags(NormItems(items)[i])
      {
        NormItemAt(items, i);
        NormSame(items[i]);
      }
    case JObject(ms) =>
      forall i | 0 <= i < |ms|
        ensures SameTree(ms[i].value, NormMembers(ms)[i].value) && ReaderTags(NormMembers(ms)[i].value)
      {
        NormMemberAt(ms, i);
        NormSame(ms[i].value);
      }
    case _ =>
  }

  /** A tree has one form with the reader's tags. */
  lemma {:induction false} SameTreeUnique(v: JValue, w: JValue, u: JValue)
    requires SameTree(v, w) && ReaderTags(w) && SameTree(v, u) && ReaderTags(u)
    ensures w == u
  {
    match v
    case JArray(items) =>
      forall i | 0 <= i < |items| ensures w.items[i] == u.items[i] {
        SameTreeUnique(items[i], w.items[i], u.items[i]);
      }
    case JObject(ms) =>
      forall i | 0 <= i < |ms| ensures w.members[i] == u.members[i] {
        SameTreeUnique(ms[i].value, w.members[i].value, u.members[i].value);
      }
    case _ =>
  }

  // -------------------------------------------------------------- key order

  /** The key order is byte by byte: a proper prefix, or a smaller byte at the first difference. */
  lemma {:induction false} KeyLessIs(a: string, b: string)
    ensures KeyLess(a, b) <==> a < b || exists i :: 0 <= i < |a| && i < |b| && a[..i] == b[..i] && a[i] < b[i]
  {
    if a != [] && b != [] && a[0] == b[0] {
      var s, t := a[1..], b[1..];
      KeyLessIs(s, t);
      assert a == [a[0]] + s && b == [b[0]] + t;
      if i: int :| 0 <= i < |s| && i < |t| && s[..i] == t[..i] && s[i] < t[i] {
        assert a[..i + 1] == [a[0]] + s[..i] && b[..i + 1] == [b[0]] + t[..i];
        assert a[i + 1] < b[i + 1];
      }
      if i: int :| 0 <= i < |a| && i < |b| && a[..i] == b[..i] && a[i] < b[i] {
        assert s[..i - 1] == a[..i][1..] && t[..i - 1] == b[..i][1..];
        assert s[i - 1] < t[i - 1];
      }
    } else if a != [] && b != [] {
      assert a[..0] == b[..0];
      if i: int :| 0 < i < |a| && i < |b| && a[..i] == b[..i] {
        assert a[..i][0] == b[..i][0];
      }
    }
  }

  /** It is a strict total order. */
  lemma {:induction false} KeyLessTransitive(a: string, b: string, c: string)
    requires KeyLess(a, b) && KeyLess(b, c)
    ensures KeyLess(a, c)
  {
    if a != [] && a[0] == b[0] == c[0] {
      KeyLessTransitive(a[1..], b[1..], c[1..]);
    }
  }

  lemma {:induction false} KeyLessTotal(a: string, b: string)
    ensures a == b || KeyLess(a, b) || KeyLess(b, a)
  {
    if a != [] && b != [] && a[0] == b[0] {
      KeyLessTotal(a[1..], b[1..]);
      assert a == [a[0]] + a[1..] && b == [b[0]] + b[1..];
    }
  }
}
