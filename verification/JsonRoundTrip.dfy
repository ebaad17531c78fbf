/** Reading what `FastWriter` wrote gives the tree back, or the stack limit when it is nested too deep. */
module JsonRoundTrip {
  import opened Numerals
  import opened Wrappers
  import opened Json
  import opened JsonReader

  // ------------------------------------------------------------------- tokens

  lemma {:induction false} PunctuationToken(c: char, t: string)
    requires c == '{' || c == '}' || c == '[' || c == ']' || c == ',' || c == ':'
    ensures ReadToken([c] + t) == Token(SimpleKind(c), [c], t)
  {
    assert SkipSpaces([c] + t) == [c] + t;
    assert ([c] + t)[1..] == t;
  }

  lemma {:induction false} StringTokenAt(t: string)
    ensures var (n, ok) := StringLength(t);
      ReadToken("\"" + t) == Token(if ok then StringToken else ErrorToken, "\"" + t[..n], t[n..])
  {
    hide StringLength;
    var s := "\"" + t;
    assert SkipSpaces(s) == s;
    assert s[1..] == t;
    var n := StringLength(t).0;
    assert s[..n + 1] == "\"" + t[..n];
  }

  lemma {:induction false} NumberTokenAt(c: char, t: string)
    requires 0 <= DigitOf(c) || c == '-'
    ensures ReadToken([c] + t) == Token(NumberToken, [c] + t[..NumberLength(t)], t[NumberLength(t)..])
  {
    hide NumberLength;
    var s := [c] + t;
    assert SkipSpaces(s) == s;
    assert s[1..] == t;
    var n := NumberLength(t);
    assert s[..n + 1] == [c] + t[..n];
  }

  lemma {:induction false} WordToken(v: JValue, suf: string)
    requires v.JNull? || v.JBool?
    ensures ReadToken(Text(v) + suf) ==
      Token(if v.JNull? then NullToken else if v.b then TrueToken else FalseToken, Text(v), suf)
  {
    var s := Text(v) + suf;
    assert SkipSpaces(s) == s;
    assert Text(v) <= s && s[|Text(v)|..] == suf;
  }

  // ------------------------------------------------------------------ strings

  lemma StringLengthRaw(c: char, t: string)
    requires c != '"' && c != '\\'
    ensures StringLength([c] + t) == (StringLength(t).0 + 1, StringLength(t).1)
  {
    assert ([c] + t)[1..] == t;
  }

  lemma StringLengthSkips(s: string)
    requires |s| >= 2 && s[0] == '\\'
    ensures StringLength(s) == (StringLength(s[2..]).0 + 2, StringLength(s[2..]).1)
  {
  }

  lemma StringLengthEscaped(c: char, t: string)
    ensures StringLength(['\\', c] + t) == (StringLength(t).0 + 2, StringLength(t).1)
  {
    hide StringLength;
    var s := ['\\', c] + t;
    assert s[2..] == t;
    StringLengthSkips(s);
  }

  lemma HexDigitPlain(n: nat)
    requires n < 16
    ensures DigitChar(n) != '"' && DigitChar(n) != '\\' && HexValue(DigitChar(n)) == n
  {
  }

  /** An escaped character is passed over whole. */
  lemma {:induction false} EscapePassed(c: char, t: string)
    ensures StringLength(EscapeChar(c) + t) == (StringLength(t).0 + |EscapeChar(c)|, StringLength(t).1)
  {
    hide StringLength;
    var e := EscapeChar(c);
    if |e| == 1 {
      StringLengthRaw(c, t);
    } else if |e| == 2 {
      StringLengthEscaped(e[1], t);
      assert e == ['\\', e[1]];
    } else {
      var h, l := DigitChar(c as int / 16), DigitChar(c as int % 16);
      HexDigitPlain(c as int / 16);
      HexDigitPlain(c as int % 16);
      StringLengthRaw(l, t);
      StringLengthRaw(h, [l] + t);
      StringLengthRaw('0', [h] + ([l] + t));
      StringLengthRaw('0', ['0'] + ([h] + ([l] + t)));
      StringLengthEscaped('u', ['0'] + (['0'] + ([h] + ([l] + t))));
      assert e + t == ['\\', 'u'] + (['0'] + (['0'] + ([h] + ([l] + t))));
    }
  }

  lemma QuoteEnds(t: string)
    ensures StringLength("\"" + t) == (1, true)
  {
  }

  lemma {:induction false} EscapeLength(s: string, t: string)
    ensures StringLength(Escape(s) + "\"" + t) == (|Escape(s)| + 1, true)
  {
    hide StringLength, EscapeChar;
    if s == [] {
      QuoteEnds(t);
      assert Escape(s) + "\"" + t == "\"" + t;
    } else {
      EscapeLength(s[1..], t);
      EscapePassed(s[0], Escape(s[1..]) + "\"" + t);
      assert Escape(s) + "\"" + t == EscapeChar(s[0]) + (Escape(s[1..]) + "\"" + t);
    }
  }

  lemma {:induction false} EscapeDecoded(c: char, t: string)
    ensures DecodeBody(EscapeChar(c) + t) == Prepend([c], DecodeBody(t))
  {
    var e := EscapeChar(c);
    var b := e + t;
    if |e| == 1 {
      assert b[1..] == t;
    } else if |e| == 2 {
      assert b[2..] == t;
    } else {
      ControlQuad(c, b[2..]);
      assert b[2 + 4..] == t;
      assert Utf8(c as int) == [c];
    }
  }

  lemma ControlQuad(c: char, q: string)
    requires |q| >= 4 && (c as int) < 256
    requires q[..4] == ['0', '0', DigitChar(c as int / 16), DigitChar(c as int % 16)]
    ensures CodePoint(q) == Some((c as int, 4))
  {
    HexDigitPlain(c as int / 16);
    HexDigitPlain(c as int % 16);
    assert q[0] == '0' && q[1] == '0' && q[2] == DigitChar(c as int / 16) && q[3] == DigitChar(c as int % 16);
    assert HexQuad(q) == Some(c as int);
  }

  lemma {:induction false} EscapeRoundTrip(s: string)
    ensures DecodeBody(Escape(s)) == Some(s)
  {
    if s != [] {
      EscapeRoundTrip(s[1..]);
      EscapeDecoded(s[0], Escape(s[1..]));
      assert [s[0]] + s[1..] == s;
    }
  }

  /** A quoted string is one token, and decodes to the string. */
  lemma {:induction false} QuotedToken(s: string, suf: string)
    ensures ReadToken(Quoted(s) + suf) == Token(StringToken, Quoted(s), suf)
    ensures |Quoted(s)| >= 2 && DecodeString(Quoted(s)) == Some(s)
  {
    hide ReadToken, StringLength, DecodeBody;
    var t := Escape(s) + "\"" + suf;
    assert Quoted(s) + suf == "\"" + t;
    EscapeLength(s, suf);
    StringTokenAt(t);
    assert t[..|Escape(s)| + 1] == Escape(s) + "\"" && t[|Escape(s)| + 1..] == suf;
    assert "\"" + (Escape(s) + "\"") == Quoted(s);
    EscapeRoundTrip(s);
    assert Quoted(s)[1..|Quoted(s)| - 1] == Escape(s);
  }

  // ------------------------------------------------------------ unicode escapes

  /** Four hexadecimal digits. */
  function HexText(u: nat): (s: string)
    requires u < 0x10000
    ensures |s| == 4
  {
    var u1 := u / 16;
    var u2 := u1 / 16;
    [DigitChar(u2 / 16), DigitChar(u2 % 16), DigitChar(u1 % 16), DigitChar(u % 16)]
  }

  /** A code point as RFC 8259 section 7 escapes it: one escape, or a surrogate pair beyond the basic plane. */
  function EscapedCodePoint(cp: nat): string
    requires cp <= 0x10FFFF
  {
    if cp < 0x10000 then "\\u" + HexText(cp)
    else "\\u" + HexText(0xD800 + (cp - 0x10000) / 0x400) + "\\u" + HexText(0xDC00 + (cp - 0x10000) % 0x400)
  }

  lemma HexQuadOf(u: nat, t: string)
    requires u < 0x10000
    ensures HexQuad(HexText(u) + t) == Some(u)
  {
    hide DigitChar, HexValue;
    var u1 := u / 16;
    var u2 := u1 / 16;
    HexDigitPlain(u2 / 16);
    HexDigitPlain(u2 % 16);
    HexDigitPlain(u1 % 16);
    HexDigitPlain(u % 16);
  }

  /** Every escaped code point but a lone high surrogate decodes to its UTF-8 bytes. */
  lemma {:induction false} EscapedCodePointDecoded(cp: nat, t: string)
    requires cp <= 0x10FFFF && !(0xD800 <= cp <= 0xDBFF)
    ensures DecodeBody(EscapedCodePoint(cp) + t) == Prepend(Utf8(cp), DecodeBody(t))
  {
    hide HexQuad, HexText, Utf8, DecodeBody, CodePoint, Prepend;
    if cp < 0x10000 {
      OneQuad(cp, t);
      DecodeEscape(HexText(cp) + t, cp, 4);
      assert EscapedCodePoint(cp) + t == "\\u" + (HexText(cp) + t);
      assert (HexText(cp) + t)[4..] == t;
    } else {
      var hi, lo := 0xD800 + (cp - 0x10000) / 0x400, 0xDC00 + (cp - 0x10000) % 0x400;
      var c := HexText(hi) + ("\\u" + HexText(lo) + t);
      TwoQuads(cp, hi, lo, t);
      DecodeEscape(c, cp, 10);
      assert EscapedCodePoint(cp) + t == "\\u" + c;
      assert c[10..] == t;
    }
  }

  /** The two-character escapes of RFC 8259 section 7 with their code points. */
  const SHORT_ESCAPES: set<(char, nat)> :=
    {('"', 0x22), ('\\', 0x5C), ('/', 0x2F), ('b', 0x08), ('f', 0x0C), ('n', 0x0A), ('r', 0x0D), ('t', 0x09)}

  /** A two-character escape means its code point, just as the long escape does. */
  lemma ShortEscape(e: char, cp: nat, t: string)
    requires (e, cp) in SHORT_ESCAPES
    ensures cp < 0x80 && DecodeBody(['\\', e] + t) == DecodeBody(EscapedCodePoint(cp) + t)
  {
    hide DecodeBody, EscapedCodePoint, Prepend;
    EscapedCodePointDecoded(cp, t);
    DecodeSimple(e, t);
    assert Utf8(cp) == [cp as char];
  }

  lemma DecodeSimple(e: char, t: string)
    requires e != 'u'
    ensures DecodeBody(['\\', e] + t)
         == match SimpleEscape(e) case None => None case Some(c) => Prepend([c], DecodeBody(t))
  {
    hide CodePoint, Prepend;
    var b := ['\\', e] + t;
    assert b[2..] == t;
  }

  /** Any other character after a backslash is an error. */
  lemma NoOtherEscape(e: char, t: string)
    requires e != 'u' && forall cp: nat :: (e, cp) !in SHORT_ESCAPES
    ensures DecodeBody(['\\', e] + t) == None
  {
    hide DecodeBody, SimpleEscape;
    DecodeSimple(e, t);
    SimpleIsShort(e);
  }

  lemma SimpleIsShort(e: char)
    ensures SimpleEscape(e).Some? ==> (e, SimpleEscape(e).value as int) in SHORT_ESCAPES
  {
  }

  /** Written text has no raw control character, as RFC 8259 section 7 demands. */
  lemma {:induction false} EscapedHasNoControl(s: string)
    ensures forall i :: 0 <= i < |Escape(s)| ==> Escape(s)[i] as int >= 0x20
  {
    if s != [] {
      EscapedHasNoControl(s[1..]);
      EscapedOne(s[0]);
    }
  }

  lemma EscapedOne(c: char)
    ensures forall i :: 0 <= i < |EscapeChar(c)| ==> EscapeChar(c)[i] as int >= 0x20
  {
    if IsControl(c) {
      HexDigitPlain(c as int / 16);
      HexDigitPlain(c as int % 16);
    }
  }

  lemma DecodeEscape(r: string, cp: nat, n: nat)
    requires CodePoint(r) == Some((cp, n))
    ensures n <= |r| && cp <= 0x10FFFF && DecodeBody("\\u" + r) == Prepend(Utf8(cp), DecodeBody(r[n..]))
  {
    hide CodePoint, Utf8, Prepend;
    var b := "\\u" + r;
    assert b[2..] == r && b[2 + n..] == r[n..];
  }

  lemma OneQuad(u: nat, t: string)
    requires u < 0x10000 && !(0xD800 <= u <= 0xDBFF)
    ensures CodePoint(HexText(u) + t) == Some((u, 4))
  {
    hide HexQuad, HexText;
    HexQuadOf(u, t);
  }

  lemma TwoQuads(cp: nat, hi: nat, lo: nat, t: string)
    requires 0x10000 <= cp <= 0x10FFFF
    requires hi == 0xD800 + (cp - 0x10000) / 0x400 && lo == 0xDC00 + (cp - 0x10000) % 0x400
    ensures CodePoint(HexText(hi) + ("\\u" + HexText(lo) + t)) == Some((cp, 10))
  {
    hide HexQuad, HexText;
    HexQuadOf(hi, "\\u" + HexText(lo) + t);
    HexQuadOf(lo, t);
    var c := HexText(hi) + ("\\u" + HexText(lo) + t);
    assert c[6..] == HexText(lo) + t && c[4] == '\\' && c[5] == 'u';
    Surrogates(cp, hi, lo);
  }

  lemma Surrogates(cp: nat, hi: nat, lo: nat)
    requires 0x10000 <= cp <= 0x10FFFF
    requires hi == 0xD800 + (cp - 0x10000) / 0x400 && lo == 0xDC00 + (cp - 0x10000) % 0x400
    ensures 0xD800 <= hi <= 0xDBFF && 0x10000 + hi % 0x400 * 0x400 + lo % 0x400 == cp
  {
  }

  /** The code point that UTF-8 bytes stand for. */
  function Utf8Value(s: string): int {
    if |s| == 1 then s[0] as int
    else if |s| == 2 then (s[0] as int - 0xC0) * 0x40 + (s[1] as int - 0x80)
    else if |s| == 3 then ((s[0] as int - 0xE0) * 0x40 + (s[1] as int - 0x80)) * 0x40 + (s[2] as int - 0x80)
    else if |s| == 4 then
      (((s[0] as int - 0xF0) * 0x40 + (s[1] as int - 0x80)) * 0x40 + (s[2] as int - 0x80)) * 0x40 + (s[3] as int - 0x80)
    else -1
  }

  /** `codePointToUTF8` loses nothing: the bytes determine the code point. */
  lemma Utf8RoundTrip(cp: nat)
    requires cp <= 0x10FFFF
    ensures Utf8Value(Utf8(cp)) == cp
    ensures forall i :: 0 <= i < |Utf8(cp)| ==> Utf8(cp)[i] as int < 256
  {
  }

  // ------------------------------------------------------------------ numbers

  /** Input that ends a number. */
  predicate Closes(suf: string) {
    suf == [] || (DigitOf(suf[0]) < 0 && suf[0] != '.' && suf[0] != 'e' && suf[0] != 'E')
  }

  lemma DigitIs(c: char)
    requires IsDigit(c, 10)
    ensures DigitOf(c) == CharDigit(c) && 0 <= DigitOf(c) < 10
  {
  }

  /** Reading digits from the front. */
  lemma {:induction false} HornerCons(v: nat, ds: string)
    requires AllDigits(ds, 10) && ds != []
    ensures IsDigit(ds[0], 10) && Horner(v, ds, 10) == Horner(v * 10 + CharDigit(ds[0]), ds[1..], 10)
    decreases |ds|
  {
    hide CharDigit;
    var n := |ds| - 1;
    if n > 0 {
      assert ds[1..][..n - 1] == ds[..n][1..];
      HornerCons(v, ds[..n]);
    } else {
      assert ds[..0] == [] && ds[1..] == [];
    }
  }

  lemma {:induction false} HornerGrows(v: nat, ds: string)
    requires AllDigits(ds, 10)
    ensures Horner(v, ds, 10) >= v
    decreases |ds|
  {
    hide CharDigit;
    if ds != [] {
      HornerGrows(v, ds[..|ds| - 1]);
    }
  }

  /** `decodeNumber` takes a run of digits for an integer exactly when its value is at most the bound. */
  lemma {:induction false} DecodeDigitsExact(ds: string, value: nat, max: nat)
    requires AllDigits(ds, 10) && value <= max && 10 <= max
    ensures DecodeDigits(ds, value, max) == if Horner(value, ds, 10) <= max then Some(Horner(value, ds, 10)) else None
  {
    hide Horner, CharDigit, IsDigit;
    if ds == [] {
      HornerNone(value);
    } else {
      HornerCons(value, ds);
      DigitIs(ds[0]);
      var d := DigitOf(ds[0]);
      var next := value * 10 + d;
      assert AllDigits(ds[1..], 10);
      HornerGrows(next, ds[1..]);
      if value >= max / 10 && (value > max / 10 || |ds| > 1 || d > max % 10) {
        if value == max / 10 && d <= max % 10 {
          HornerCons(next, ds[1..]);
          DigitIs(ds[1..][0]);
          HornerGrows(next * 10 + DigitOf(ds[1..][0]), ds[1..][1..]);
        }
      } else {
        DecodeDigitsExact(ds[1..], next, max);
      }
    }
  }

  lemma HornerNone(v: nat)
    ensures Horner(v, [], 10) == v
  {
  }

  lemma {:induction false} DigitRunAll(ds: string, suf: string)
    requires AllDigits(ds, 10) && (suf == [] || DigitOf(suf[0]) < 0)
    ensures DigitRun(ds + suf) == |ds|
  {
    if ds == [] {
      assert ds + suf == suf;
    } else {
      assert (ds + suf)[1..] == ds[1..] + suf;
      DigitRunAll(ds[1..], suf);
    }
  }

  lemma {:induction false} PlainNumberLength(ds: string, suf: string)
    requires AllDigits(ds, 10) && Closes(suf)
    ensures NumberLength(ds + suf) == |ds|
  {
    hide DigitRun;
    DigitRunAll(ds, suf);
    assert suf != [] ==> (ds + suf)[|ds|] == suf[0];
  }

  /** A number is one token, and decodes to itself with the reader's tag. */
  lemma {:induction false} IntToken(i: int, suf: string)
    requires -MAX_INT64 - 1 <= i <= MAX_UINT64 && Closes(suf)
    ensures IntText(i) != [] && ReadToken(IntText(i) + suf) == Token(NumberToken, IntText(i), suf)
    ensures DecodeNumber(IntText(i)) == Retagged(i) && IsInteger(DecodeNumber(IntText(i)), i)
  {
    hide ReadToken, NumberLength, NatText, DecodeDigits, Horner;
    RetaggedIs(i);
    var text := IntText(i);
    var n := if i < 0 then -i else i;
    var ds := text[1..];
    assert AllDigits(NatText(n, 10), 10) && AllDigits(ds, 10);
    PlainNumberLength(ds, suf);
    NumberTokenAt(text[0], ds + suf);
    assert text + suf == [text[0]] + (ds + suf);
    assert (ds + suf)[..|ds|] == ds && (ds + suf)[|ds|..] == suf && [text[0]] + ds == text;
    NatTextMeans(n, 10);
    DecodeDigitsExact(NatText(n, 10), 0, if i < 0 then MAX_INT64 + 1 else MAX_UINT64);
    if i < 0 {
      assert text[1..] == NatText(n, 10);
    }
  }

  /** Any integer text decodes to its number within 64 bits, and is left to the stream extraction beyond. */
  lemma NumberDecoded(negative: bool, ds: string)
    requires AllDigits(ds, 10) && ds != []
    ensures var text := (if negative then "-" else "") + ds;
      var n := Horner(0, ds, 10);
      var v := DecodeNumber(text);
      if n <= (if negative then 0x8000_0000_0000_0000 else 0xFFFF_FFFF_FFFF_FFFF)
      then IsInteger(v, if negative then -(n as int) else n) && ReaderTags(v)
      else v == JReal(text)
  {
    hide DecodeDigits, Horner, CharDigit;
    var text := (if negative then "-" else "") + ds;
    var n := Horner(0, ds, 10);
    DecodeDigitsExact(ds, 0, if negative then MAX_INT64 + 1 else MAX_UINT64);
    RetaggedIs(n);
    if negative {
      assert text[1..] == ds;
    } else {
      assert text == ds && IsDigit(ds[0], 10);
      DashIsNoDigit();
    }
  }

  lemma DashIsNoDigit()
    ensures !IsDigit('-', 10)
  {
  }

  // ------------------------------------------------------------------- values

  /** The reader's answer for a value at a depth: the retagged value, or the stack limit. */
  function Expected(v: JValue, suf: string, depth: nat): Result<JValue>
    requires depth <= STACK_LIMIT
  {
    if Fits(v, STACK_LIMIT - depth) then Done(Norm(v), suf) else StackLimit
  }

  /** No text of a value begins with a space or a closing bracket. */
  lemma {:induction false} TextStart(v: JValue)
    requires WellFormed(v)
    ensures Text(v) != [] && !IsSpace(Text(v)[0]) && Text(v)[0] != ']'
  {
    hide NatText, Escape, ItemsText, MembersText;
    match v
    case JInt(i) =>
      assert IntText(i)[0] == '-' || 0 <= DigitOf(IntText(i)[0]);
    case JUInt(u) =>
      assert 0 <= DigitOf(NatText(u, 10)[0]);
    case _ =>
  }

  lemma {:induction false} InsertLast(ms: seq<Member>, name: string, v: JValue)
    requires forall i :: 0 <= i < |ms| ==> KeyLess(ms[i].name, name)
    ensures Insert(ms, name, v) == ms + [Member(name, v)]
  {
    if ms != [] {
      assert ms[0].name != name by { KeyLessIrreflexive(name); }
      InsertLast(ms[1..], name, v);
      assert [ms[0]] + (ms[1..] + [Member(name, v)]) == ms + [Member(name, v)];
    }
  }

  predicate ItemsWell(items: seq<JValue>) {
    forall i :: 0 <= i < |items| ==> WellFormed(items[i])
  }

  predicate ItemsFit(items: seq<JValue>, d: nat) {
    forall i :: 0 <= i < |items| ==> Fits(items[i], d)
  }

  predicate MembersWell(ms: seq<Member>) {
    forall i :: 0 <= i < |ms| ==> WellFormed(ms[i].value)
  }

  predicate MembersFit(ms: seq<Member>, d: nat) {
    forall i :: 0 <= i < |ms| ==> Fits(ms[i].value, d)
  }

  /** All members already read come before all still to be read. */
  predicate Below(acc: seq<Member>, ms: seq<Member>) {
    forall i, j :: 0 <= i < |acc| && 0 <= j < |ms| ==> KeyLess(acc[i].name, ms[j].name)
  }

  lemma {:induction false} ItemsCons(items: seq<JValue>, d: nat)
    requires items != []
    ensures ItemsWell(items) ==> WellFormed(items[0]) && ItemsWell(items[1..])
    ensures ItemsFit(items, d) <==> Fits(items[0], d) && ItemsFit(items[1..], d)
  {
    assert forall i :: 0 < i < |items| ==> items[i] == items[1..][i - 1];
  }

  lemma {:induction false} MembersCons(ms: seq<Member>, d: nat)
    requires ms != []
    ensures MembersWell(ms) ==> WellFormed(ms[0].value) && MembersWell(ms[1..])
    ensures MembersFit(ms, d) <==> Fits(ms[0].value, d) && MembersFit(ms[1..], d)
  {
    assert forall i :: 0 < i < |ms| ==> ms[i] == ms[1..][i - 1];
  }

  lemma {:induction false} BelowCons(acc: seq<Member>, ms: seq<Member>, v: JValue)
    requires ms != [] && Sorted(ms) && Below(acc, ms)
    ensures Sorted(ms[1..]) && Below(acc + [Member(ms[0].name, v)], ms[1..])
    ensures Insert(acc, ms[0].name, v) == acc + [Member(ms[0].name, v)]
  {
    hide KeyLess;
    InsertLast(acc, ms[0].name, v);
  }

  lemma {:induction false} ArrayFacts(items: seq<JValue>, d: nat, suf: string)
    ensures WellFormed(JArray(items)) <==> ItemsWell(items)
    ensures Fits(JArray(items), d + 1) <==> ItemsFit(items, d)
    ensures Text(JArray(items)) + suf == ['['] + (ItemsText(items) + "]" + suf)
    ensures Norm(JArray(items)) == JArray(NormItems(items)) && [] + NormItems(items) == NormItems(items)
  {
    hide ItemsText, NormItems;
  }

  lemma {:induction false} ObjectFacts(ms: seq<Member>, d: nat, suf: string)
    ensures WellFormed(JObject(ms)) <==> Sorted(ms) && MembersWell(ms)
    ensures Fits(JObject(ms), d + 1) <==> MembersFit(ms, d)
    ensures Text(JObject(ms)) + suf == ['{'] + (MembersText(ms) + "}" + suf)
    ensures Norm(JObject(ms)) == JObject(NormMembers(ms)) && [] + NormMembers(ms) == NormMembers(ms)
    ensures Below([], ms)
  {
    hide KeyLess, MembersText, NormMembers;
  }

  lemma {:induction false} ItemsTail(items: seq<JValue>, d: nat, acc: seq<JValue>)
    requires items != []
    ensures acc + [Norm(items[0])] + NormItems(items[1..]) == acc + NormItems(items)
    ensures |items| == 1 ==> acc + NormItems(items) == acc + [Norm(items[0])] && ItemsFit(items[1..], d)
  {
    hide Norm, Fits;
    var n := NormItems(items[1..]);
    assert NormItems(items) == [Norm(items[0])] + n;
    assert acc + [Norm(items[0])] + n == acc + ([Norm(items[0])] + n);
    assert |items| == 1 ==> n == [];
  }

  lemma {:induction false} MembersTail(ms: seq<Member>, d: nat, acc: seq<Member>)
    requires ms != []
    ensures acc + [Member(ms[0].name, Norm(ms[0].value))] + NormMembers(ms[1..]) == acc + NormMembers(ms)
    ensures |ms| == 1 ==> acc + NormMembers(ms) == acc + [Member(ms[0].name, Norm(ms[0].value))] && MembersFit(ms[1..], d)
  {
    hide Norm, Fits;
    var m, n := Member(ms[0].name, Norm(ms[0].value)), NormMembers(ms[1..]);
    assert NormMembers(ms) == [m] + n;
    assert acc + [m] + n == acc + ([m] + n);
    assert |ms| == 1 ==> n == [];
  }

  lemma PunctuationCloses(c: char, t: string)
    requires c == ',' || c == ']' || c == '}'
    ensures Closes([c] + t)
  {
  }

  /** The text of a non-empty array begins with the text of its first item. */
  lemma {:induction false} ItemsStart(items: seq<JValue>, suf: string)
    requires items != [] && ItemsWell(items)
    ensures var t := ItemsText(items) + "]" + suf; t != [] && !IsSpace(t[0]) && t[0] != ']'
  {
    hide Text;
    TextStart(items[0]);
  }

  /** Reading the text of a value gives the value, whatever closes it. */
  lemma {:induction false} ReadBack(v: JValue, suf: string, depth: nat, dbl: Doubles)
    requires WellFormed(v) && Closes(suf) && depth <= STACK_LIMIT
    ensures ReadValue(Text(v) + suf, depth, dbl) == Expected(v, suf, depth)
    decreases v, 1
  {
    hide ReadValue, ReadItems, ReadMembers, ReadToken, Text, Quoted, ItemsText, MembersText, Norm, NormItems, NormMembers,
      Fits, WellFormed, KeyLess, Sorted, Below, ItemsWell, ItemsFit, MembersWell, MembersFit, Insert, Closes;
    if v.JArray? && depth < STACK_LIMIT {
      ReadArrayBack(v.items, suf, depth, dbl);
    } else if v.JObject? && depth < STACK_LIMIT {
      ReadObjectBack(v.members, suf, depth, dbl);
    } else {
      ReadScalarBack(v, suf, depth, dbl);
    }
  }

  lemma {:induction false} ReadScalarBack(v: JValue, suf: string, depth: nat, dbl: Doubles)
    requires WellFormed(v) && Closes(suf) && depth <= STACK_LIMIT && (depth == STACK_LIMIT || !(v.JArray? || v.JObject?))
    ensures ReadValue(Text(v) + suf, depth, dbl) == Expected(v, suf, depth)
  {
    hide ReadToken, ReadItems, ReadMembers, ItemsText, MembersText, Quoted, NatText, DecodeString, DecodeNumber;
    if depth < STACK_LIMIT {
      match v
      case JNull => WordToken(v, suf);
      case JBool(_) => WordToken(v, suf);
      case JInt(i) => IntToken(i, suf);
      case JUInt(u) => IntToken(u, suf);
      case JString(s) => QuotedToken(s, suf);
    }
  }

  lemma {:induction false} OpenArray(t: string, depth: nat, dbl: Doubles)
    requires depth < STACK_LIMIT && t != [] && !IsSpace(t[0])
    ensures ReadValue(['['] + t, depth, dbl) ==
      if t[0] == ']' then Done(JArray([]), t[1..]) else ReadItems(t, depth + 1, dbl, [])
  {
    hide ReadToken, ReadItems;
    PunctuationToken('[', t);
  }

  lemma {:induction false} OpenObject(t: string, depth: nat, dbl: Doubles)
    requires depth < STACK_LIMIT
    ensures ReadValue(['{'] + t, depth, dbl) == ReadMembers(t, depth + 1, dbl, [], [])
  {
    hide ReadToken, ReadMembers;
    PunctuationToken('{', t);
  }

  lemma {:induction false} ReadArrayBack(items: seq<JValue>, suf: string, depth: nat, dbl: Doubles)
    requires WellFormed(JArray(items)) && depth < STACK_LIMIT
    ensures ReadValue(Text(JArray(items)) + suf, depth, dbl) == Expected(JArray(items), suf, depth)
    decreases items, 2
  {
    hide ReadValue, ReadItems, ReadMembers, ReadToken, Text, Quoted, ItemsText, MembersText, Norm, NormItems, NormMembers,
      Fits, WellFormed, KeyLess, Sorted, Below, ItemsWell, ItemsFit, MembersWell, MembersFit, Insert, Closes;
    var t := ItemsText(items) + "]" + suf;
    ArrayFacts(items, STACK_LIMIT - depth - 1, suf);
    if items == [] {
      EmptyArray(suf, depth, dbl);
    } else {
      ItemsStart(items, suf);
      OpenArray(t, depth, dbl);
      ReadItemsBack(items, suf, depth + 1, dbl, []);
    }
  }

  lemma {:induction false} EmptyArray(suf: string, depth: nat, dbl: Doubles)
    requires depth < STACK_LIMIT
    ensures ReadValue(Text(JArray([])) + suf, depth, dbl) == Expected(JArray([]), suf, depth)
  {
    hide ReadToken, ReadItems;
    OpenArray("]" + suf, depth, dbl);
    assert ("]" + suf)[1..] == suf;
    assert Text(JArray([])) + suf == ['['] + ("]" + suf);
  }

  /** The loop over the items, from any items already read. */
  lemma {:induction false} ReadItemsBack(items: seq<JValue>, suf: string, depth: nat, dbl: Doubles, acc: seq<JValue>)
    requires items != [] && ItemsWell(items) && depth <= STACK_LIMIT
    ensures ReadItems(ItemsText(items) + "]" + suf, depth, dbl, acc) ==
      if ItemsFit(items, STACK_LIMIT - depth) then Done(JArray(acc + NormItems(items)), suf) else StackLimit
    decreases items, 0
  {
    hide ReadValue, ReadItems, ReadMembers, ReadToken, Text, Quoted, ItemsText, MembersText, Norm, NormItems, NormMembers,
      Fits, WellFormed, KeyLess, Sorted, Below, ItemsWell, ItemsFit, MembersWell, MembersFit, Insert, Closes;
    var head, tail := items[0], items[1..];
    var more := ItemsText(tail) + "]" + suf;
    var closing := if tail == [] then "]" + suf else "," + more;
    ItemsTextSplit(items, suf);
    ItemsCons(items, STACK_LIMIT - depth);
    ItemsTail(items, STACK_LIMIT - depth, acc);
    PunctuationCloses(']', suf);
    PunctuationCloses(',', more);
    ReadBack(head, closing, depth, dbl);
    ReadOneItem(head, closing, depth, dbl, acc);
    if tail == [] {
      PunctuationToken(']', suf);
    } else {
      PunctuationToken(',', more);
      ReadItemsBack(tail, suf, depth, dbl, acc + [Norm(head)]);
    }
  }

  lemma {:induction false} ItemsTextSplit(items: seq<JValue>, suf: string)
    requires items != []
    ensures var more := ItemsText(items[1..]) + "]" + suf;
      var closing := if |items| == 1 then "]" + suf else "," + more;
      ItemsText(items) + "]" + suf == Text(items[0]) + closing
  {
    hide Text;
    var t := Text(items[0]);
    if |items| == 1 {
      assert t + "]" + suf == t + ("]" + suf);
    } else {
      var m := ItemsText(items[1..]);
      assert t + "," + m + "]" + suf == t + ("," + (m + "]" + suf));
    }
  }

  /** One pass of the loop of `readArray`, for an item that reads as expected. */
  lemma {:induction false} ReadOneItem(v: JValue, closing: string, depth: nat, dbl: Doubles, acc: seq<JValue>)
    requires depth <= STACK_LIMIT && ReadValue(Text(v) + closing, depth, dbl) == Expected(v, closing, depth)
    ensures var res := ReadItems(Text(v) + closing, depth, dbl, acc);
      var e := ReadToken(closing);
      if !Fits(v, STACK_LIMIT - depth) then res == StackLimit
      else if e.kind == ArrayEnd then res == Done(JArray(acc + [Norm(v)]), e.rest)
      else if e.kind == Comma then res == ReadItems(e.rest, depth, dbl, acc + [Norm(v)])
      else res == SyntaxError
  {
    hide ReadToken, ReadValue, Text, Fits;
  }

  lemma {:induction false} ReadObjectBack(ms: seq<Member>, suf: string, depth: nat, dbl: Doubles)
    requires WellFormed(JObject(ms)) && depth < STACK_LIMIT
    ensures ReadValue(Text(JObject(ms)) + suf, depth, dbl) == Expected(JObject(ms), suf, depth)
    decreases ms, 2
  {
    hide ReadValue, ReadItems, ReadMembers, ReadToken, Text, Quoted, ItemsText, MembersText, Norm, NormItems, NormMembers,
      Fits, WellFormed, KeyLess, Sorted, Below, ItemsWell, ItemsFit, MembersWell, MembersFit, Insert, Closes;
    ObjectFacts(ms, STACK_LIMIT - depth - 1, suf);
    OpenObject(MembersText(ms) + "}" + suf, depth, dbl);
    ReadMembersBack(ms, suf, depth + 1, dbl, [], []);
  }

  lemma {:induction false} MembersTextSplit(ms: seq<Member>, suf: string)
    requires ms != []
    ensures var more := MembersText(ms[1..]) + "}" + suf;
      var closing := if |ms| == 1 then "}" + suf else "," + more;
      MembersText(ms) + "}" + suf == Quoted(ms[0].name) + ([':'] + (Text(ms[0].value) + closing))
  {
    hide Quoted, Text;
    var q, t := Quoted(ms[0].name), Text(ms[0].value);
    if |ms| == 1 {
      assert q + ":" + t + "}" + suf == q + ([':'] + (t + ("}" + suf)));
    } else {
      var m := MembersText(ms[1..]);
      assert q + ":" + t + "," + m + "}" + suf == q + ([':'] + (t + ("," + (m + "}" + suf))));
    }
  }

  /** The loop over the members, from any smaller members already read. */
  lemma {:induction false} ReadMembersBack(ms: seq<Member>, suf: string, depth: nat, dbl: Doubles, acc: seq<Member>, last: string)
    requires Sorted(ms) && MembersWell(ms) && depth <= STACK_LIMIT && Below(acc, ms)
    requires ms == [] ==> last == []
    ensures ReadMembers(MembersText(ms) + "}" + suf, depth, dbl, acc, last) ==
      if MembersFit(ms, STACK_LIMIT - depth) then Done(JObject(acc + NormMembers(ms)), suf) else StackLimit
    decreases ms, 0
  {
    if ms == [] {
      PunctuationToken('}', suf);
      assert MembersText(ms) + "}" + suf == "}" + suf;
      assert acc + [] == acc;
    } else {
      ReadMoreMembersBack(ms, suf, depth, dbl, acc, last);
    }
  }

  lemma {:induction false} ReadMoreMembersBack(ms: seq<Member>, suf: string, depth: nat, dbl: Doubles, acc: seq<Member>, last: string)
    requires ms != [] && Sorted(ms) && MembersWell(ms) && depth <= STACK_LIMIT && Below(acc, ms)
    ensures ReadMembers(MembersText(ms) + "}" + suf, depth, dbl, acc, last) ==
      if MembersFit(ms, STACK_LIMIT - depth) then Done(JObject(acc + NormMembers(ms)), suf) else StackLimit
    decreases ms, -1
  {
    hide ReadValue, ReadItems, ReadMembers, ReadToken, Text, Quoted, ItemsText, MembersText, Norm, NormItems, NormMembers,
      Fits, WellFormed, KeyLess, Sorted, Below, ItemsWell, ItemsFit, MembersWell, MembersFit, Insert, Closes;
    var m, tail := ms[0], ms[1..];
    var more := MembersText(tail) + "}" + suf;
    var closing := if tail == [] then "}" + suf else "," + more;
    MembersTextSplit(ms, suf);
    MembersCons(ms, STACK_LIMIT - depth);
    MembersTail(ms, STACK_LIMIT - depth, acc);
    PunctuationCloses('}', suf);
    PunctuationCloses(',', more);
    BelowCons(acc, ms, Norm(m.value));
    ReadBack(m.value, closing, depth, dbl);
    ReadOneMember(m.name, m.value, closing, depth, dbl, acc, last);
    if tail == [] {
      PunctuationToken('}', suf);
    } else {
      PunctuationToken(',', more);
      ReadMembersBack(tail, suf, depth, dbl, acc + [Member(m.name, Norm(m.value))], m.name);
    }
  }

  /** One pass of the loop of `readObject`, for a member whose value reads as expected. */
  lemma {:induction false} ReadOneMember(name: string, v: JValue, closing: string, depth: nat, dbl: Doubles, acc: seq<Member>, last: string)
    requires depth <= STACK_LIMIT && ReadValue(Text(v) + closing, depth, dbl) == Expected(v, closing, depth)
    ensures var res := ReadMembers(Quoted(name) + ([':'] + (Text(v) + closing)), depth, dbl, acc, last);
      var e, ms1 := ReadToken(closing), Insert(acc, name, Norm(v));
      if !Fits(v, STACK_LIMIT - depth) then res == StackLimit
      else if e.kind == ObjectEnd then res == Done(JObject(ms1), e.rest)
      else if e.kind == Comma then res == ReadMembers(e.rest, depth, dbl, ms1, name)
      else res == SyntaxError
  {
    hide ReadToken, ReadValue, Text, Fits;
    QuotedToken(name, [':'] + (Text(v) + closing));
    PunctuationToken(':', Text(v) + closing);
  }

  /**
   Parsing a written document gives the tree up to the integer tag, exactly when
   it is nested at most a thousand deep; a deeper one raises the stack limit.  An
   integer comes back signed just when it is at most 2^31 - 1.
   */
  lemma WriteThenParse(v: JValue, dbl: Doubles)
    requires WellFormed(v)
    ensures Parse(Document(v), dbl) == if Fits(v, STACK_LIMIT) then Done(Norm(v), "\n") else StackLimit
    ensures var res := Parse(Document(v), dbl);
      if Fits(v, 1000) then res.Done? && res.rest == "\n" && SameTree(v, res.value) && ReaderTags(res.value)
      else res.StackLimit?
  {
    hide Parse, Document;
    NormSame(v);
    ParseIs(v, dbl);
  }

  lemma ParseIs(v: JValue, dbl: Doubles)
    requires WellFormed(v)
    ensures Parse(Document(v), dbl) == Expected(v, "\n", 0)
  {
    ReadBack(v, "\n", 0, dbl);
  }

  /** The literal names of RFC 8259 section 3. */
  lemma LiteralNames(suf: string, dbl: Doubles)
    requires Closes(suf)
    ensures Parse("null" + suf, dbl) == Done(JNull, suf)
    ensures Parse("true" + suf, dbl) == Done(JBool(true), suf)
    ensures Parse("false" + suf, dbl) == Done(JBool(false), suf)
  {
    hide ReadValue;
    ReadBack(JNull, suf, 0, dbl);
    ReadBack(JBool(true), suf, 0, dbl);
    ReadBack(JBool(false), suf, 0, dbl);
  }

  /** The white space of RFC 8259 section 2 in front of a value changes nothing. */
  lemma WhiteSpaceSkipped(ws: string, doc: string, dbl: Doubles)
    requires forall i :: 0 <= i < |ws| ==> ws[i] in {0x20 as char, 0x09 as char, 0x0A as char, 0x0D as char}
    ensures Parse(ws + doc, dbl) == Parse(doc, dbl)
  {
    hide FirstToken;
    SpacesSkipped(ws, doc);
    SameTokenRead(ws + doc, doc, dbl);
  }

  lemma SameTokenRead(r: string, s: string, dbl: Doubles)
    requires ReadToken(r) == ReadToken(s)
    ensures Parse(r, dbl) == Parse(s, dbl)
  {
    hide ReadToken, ReadItems, ReadMembers, DecodeNumber, DecodeString, SkipSpaces;
  }

  lemma {:induction false} SpacesSkipped(ws: string, doc: string)
    requires forall i :: 0 <= i < |ws| ==> ws[i] in {0x20 as char, 0x09 as char, 0x0A as char, 0x0D as char}
    ensures SkipSpaces(ws + doc) == SkipSpaces(doc)
  {
    if ws == [] {
      assert ws + doc == doc;
    } else {
      SpacesSkipped(ws[1..], doc);
      assert (ws + doc)[1..] == ws[1..] + doc;
    }
  }

  // ------------------------------------------------------- texts not written here

  /** The parts of a number after its integer digits, as section 6 of RFC 8259 has them. */
  predicate IsFraction(f: string) {
    f == [] || (|f| > 1 && f[0] == '.' && AllDigits(f[1..], 10))
  }

  predicate IsExponent(x: string) {
    x == [] || (|x| > 1 && (x[0] == 'e' || x[0] == 'E') &&
      (AllDigits(x[1..], 10) || (|x| > 2 && (x[1] == '+' || x[1] == '-') && AllDigits(x[2..], 10))))
  }

  lemma NoDigits()
    ensures DigitOf('.') < 0 && DigitOf('e') < 0 && DigitOf('E') < 0 && DigitOf('+') < 0 && DigitOf('-') < 0
  {
  }

  lemma FractionLength(f: string, t: string, pre: string)
    requires IsFraction(f) && (t == [] || (DigitOf(t[0]) < 0 && t[0] != '.'))
    ensures FractionEnd(pre + f + t, |pre|) == |pre| + |f|
  {
    hide DigitRun, DigitOf;
    var r := pre + f + t;
    if f != [] {
      assert r[|pre| + 1..] == f[1..] + t;
      DigitRunAll(f[1..], t);
    }
  }

  lemma ExponentLength(x: string, t: string, pre: string)
    requires IsExponent(x) && Closes(t)
    ensures ExponentEnd(pre + x + t, |pre|) == |pre| + |x|
  {
    hide DigitRun, DigitOf;
    NoDigits();
    var r := pre + x + t;
    var i := |pre|;
    if x != [] {
      assert r[i + 1] == x[1] && r[i] == x[0];
      if AllDigits(x[1..], 10) {
        assert x[1..][0] == x[1];
        DigitIs(x[1]);
        assert r[i + 1..] == x[1..] + t;
        DigitRunAll(x[1..], t);
      } else {
        assert r[i + 2..] == x[2..] + t;
        DigitRunAll(x[2..], t);
      }
    }
  }

  lemma NumberParts(d: string, f: string, x: string, suf: string)
    requires AllDigits(d, 10) && IsFraction(f) && IsExponent(x) && Closes(suf)
    ensures NumberLength(d + f + x + suf) == |d + f + x|
  {
    hide DigitRun, FractionEnd, ExponentEnd, DigitOf, AllDigits;
    NoDigits();
    var t, u := f + x + suf, x + suf;
    assert d + f + x + suf == d + t && d + t == d + f + u && d + f + u == (d + f) + x + suf;
    assert t != [] ==> t[0] == if f != [] then f[0] else if x != [] then x[0] else suf[0];
    assert u != [] ==> u[0] == if x != [] then x[0] else suf[0];
    DigitRunAll(d, t);
    FractionLength(f, u, d);
    ExponentLength(x, suf, d + f);
  }

  /** Every number of the grammar is one token, whatever else it turns out to be. */
  lemma GrammarNumber(minus: bool, d: string, f: string, x: string, suf: string)
    requires d != [] && AllDigits(d, 10) && IsFraction(f) && IsExponent(x) && Closes(suf)
    ensures var text := (if minus then "-" else "") + d + f + x;
      ReadToken(text + suf) == Token(NumberToken, text, suf)
  {
    hide ReadToken, NumberLength, DigitOf, AllDigits, IsFraction, IsExponent, Closes;
    DigitsTail(d);
    if minus {
      NumberAt('-', d, f, x, suf);
      assert "-" + d + f + x == ['-'] + (d + f + x);
    } else {
      NumberAt(d[0], d[1..], f, x, suf);
      assert d == [d[0]] + d[1..];
      assert "" + d + f + x == [d[0]] + (d[1..] + f + x);
    }
  }

  lemma DigitsTail(d: string)
    requires d != [] && AllDigits(d, 10)
    ensures AllDigits(d[1..], 10) && 0 <= DigitOf(d[0])
  {
    DigitIs(d[0]);
  }

  lemma NumberAt(c: char, d: string, f: string, x: string, suf: string)
    requires (c == '-' || 0 <= DigitOf(c)) && AllDigits(d, 10) && IsFraction(f) && IsExponent(x) && Closes(suf)
    ensures ReadToken([c] + (d + f + x) + suf) == Token(NumberToken, [c] + (d + f + x), suf)
  {
    hide ReadToken, NumberLength, DigitOf, AllDigits, IsFraction, IsExponent, Closes;
    var n, t := d + f + x, d + f + x + suf;
    NumberParts(d, f, x, suf);
    NumberTokenAt(c, t);
    assert t[..|n|] == n && t[|n|..] == suf;
    assert [c] + n + suf == [c] + t;
  }

  /** An object that ends in a comma is accepted exactly when its last name is empty. */
  lemma TrailingComma(name: string, v: JValue, suf: string, dbl: Doubles)
    requires WellFormed(v) && Fits(v, STACK_LIMIT - 1)
    ensures Parse("{" + Quoted(name) + ":" + Text(v) + ",}" + suf, dbl)
         == if name == [] then Done(JObject([Member([], Norm(v))]), suf) else SyntaxError
  {
    hide ReadValue, ReadToken, Quoted, Text, Norm, Fits;
    var closing := [','] + (['}'] + suf);
    PunctuationCloses(',', ['}'] + suf);
    ReadBack(v, closing, 1, dbl);
    ReadOneMember(name, v, closing, 1, dbl, [], []);
    PunctuationToken(',', ['}'] + suf);
    PunctuationToken('}', suf);
    var body := Quoted(name) + ([':'] + (Text(v) + closing));
    OpenObject(body, 0, dbl);
    assert "{" + Quoted(name) + ":" + Text(v) + ",}" + suf == ['{'] + body;
  }

  /** An array that ends in a comma is never accepted. */
  lemma TrailingCommaInArray(v: JValue, suf: string, dbl: Doubles)
    requires WellFormed(v) && Fits(v, STACK_LIMIT - 1)
    ensures Parse("[" + Text(v) + ",]" + suf, dbl) == SyntaxError
  {
    hide ReadValue, ReadToken, Text, Norm, Fits;
    var closing := [','] + ([']'] + suf);
    PunctuationCloses(',', [']'] + suf);
    ReadBack(v, closing, 1, dbl);
    ReadOneItem(v, closing, 1, dbl, []);
    PunctuationToken(',', [']'] + suf);
    PunctuationToken(']', suf);
    NoValueAt(']', suf, dbl);
    TextStart(v);
    OpenArray(Text(v) + closing, 0, dbl);
    assert "[" + Text(v) + ",]" + suf == ['['] + (Text(v) + closing);
  }

  lemma NoValueAt(c: char, suf: string, dbl: Doubles)
    requires c == ']'
    ensures ReadValue([c] + suf, 1, dbl) == SyntaxError
  {
    hide ReadToken, ReadItems, ReadMembers;
    PunctuationToken(c, suf);
  }
}
