/**
 The loops of libs/json/jsoncpp.cpp in place: `FastWriter` appending to its
 document and `Reader` moving its cursor, proved against the text and the
 reading functions.
 */
module JsonCode {
  import opened Numerals
  import opened Wrappers
  import opened Json
  import R = JsonReader
  import JsonRoundTrip

  // ------------------------------------------------------------------- writer

  function Ten(k: nat): nat {
    if k == 0 then 1 else 10 * Ten(k - 1)
  }

  lemma {:induction false} DecimalLength(n: nat, k: nat)
    requires 1 <= k && n < Ten(k)
    ensures |NatText(n, 10)| <= k
    decreases k
  {
    if n >= 10 {
      assert k > 1;
      DecimalLength(n / 10, k - 1);
    }
  }

  /** A 64-bit number has at most twenty digits. */
  lemma Uint64Length(n: nat)
    requires n <= MAX_UINT64
    ensures |NatText(n, 10)| <= 20
  {
    assert Ten(4) == 10000;
    assert Ten(8) == 100000000;
    assert Ten(12) == 1000000000000;
    assert Ten(16) == 10000000000000000;
    assert Ten(20) == 100000000000000000000;
    DecimalLength(n, 20);
  }

  /** The size of the buffer of `uintToString`: three times the size of a 64-bit number, and one. */
  const BUFFER: nat := 25

  /** `uintToString`: writes the digits before position end, last digit first. */
  method UintToString(value: nat, buffer: array<char>, end: nat) returns (at: nat)
    requires value <= MAX_UINT64 && 20 <= end <= buffer.Length
    modifies buffer
    ensures at == end - |NatText(value, 10)| && buffer[at..end] == NatText(value, 10)
    ensures buffer[end..] == old(buffer[end..])
  {
    Uint64Length(value);
    at := end;
    var v := value;
    ghost var t: string := [];
    while true
      invariant 0 <= at <= end && buffer[at..end] == t && NatText(value, 10) == NatText(v, 10) + t
      invariant buffer[end..] == old(buffer[end..])
      decreases v
    {
      at := at - 1;
      buffer[at] := '0' + (v % 10) as char;
      t := [buffer[at]] + t;
      if v < 10 {
        break;
      }
      v := v / 10;
    }
  }

  /** `valueToString` of a signed number. */
  method IntToString(value: int) returns (s: string)
    requires -MAX_INT64 - 1 <= value <= MAX_UINT64
    ensures s == IntText(value)
  {
    var buffer := new char[BUFFER];
    var at := UintToString(if value < 0 then -value else value, buffer, BUFFER - 1);
    Uint64Length(if value < 0 then -value else value);
    if value < 0 {
      at := at - 1;
      buffer[at] := '-';
    }
    s := buffer[at..BUFFER - 1];
  }

  predicate Plain(c: char) {
    EscapeChar(c) == [c]
  }

  lemma {:induction false} PlainEscape(s: string)
    requires forall i :: 0 <= i < |s| ==> Plain(s[i])
    ensures Escape(s) == s
  {
    if s != [] {
      PlainEscape(s[1..]);
      assert [s[0]] + s[1..] == s;
    }
  }

  lemma {:induction false} EscapeSnoc(s: string, c: char)
    ensures Escape(s + [c]) == Escape(s) + EscapeChar(c)
  {
    hide EscapeChar;
    if s == [] {
      assert [] + [c] == [c] && [c][1..] == [];
    } else {
      EscapeSnoc(s[1..], c);
      assert (s + [c])[1..] == s[1..] + [c];
    }
  }

  /** The scans of `strnpbrk` and `containsControlCharacter0`. */
  method HasSpecial(value: string) returns (special: bool)
    ensures !special ==> forall k :: 0 <= k < |value| ==> Plain(value[k])
  {
    for i := 0 to |value|
      invariant forall k :: 0 <= k < i ==> Plain(value[k])
    {
      var c := value[i];
      if c == '"' || c == '\\' || c == '\n' || c == '\r' || c == '\t' || c == 8 as char || c == 12 as char || IsControl(c) {
        return true;
      }
    }
    return false;
  }

  /** `valueToQuotedStringN`: a string without special characters is only put in quotes. */
  method QuoteString(value: string) returns (result: string)
    ensures result == Quoted(value)
  {
    var special := HasSpecial(value);
    if !special {
      PlainEscape(value);
      return "\"" + value + "\"";
    }
    result := EscapeAll(value);
  }

  /** The walk of `valueToQuotedStringN` that escapes each character. */
  method EscapeAll(value: string) returns (result: string)
    ensures result == Quoted(value)
  {
    hide EscapeChar, Escape;
    result := "\"";
    EscapeNothing();
    for i := 0 to |value|
      invariant result == "\"" + Escape(value[..i])
    {
      EscapeSnoc(value[..i], value[i]);
      assert value[..i + 1] == value[..i] + [value[i]];
      result := result + EscapeChar(value[i]);
    }
    assert value[..|value|] == value;
    result := result + "\"";
  }

  lemma EscapeNothing()
    ensures Escape([]) == []
  {
  }

  lemma {:induction false} ItemsSnoc(items: seq<JValue>, v: JValue)
    ensures ItemsText(items + [v]) == ItemsText(items) + (if items == [] then "" else ",") + Text(v)
  {
    var all := items + [v];
    if items != [] {
      ItemsSnoc(items[1..], v);
      assert all[1..] == items[1..] + [v];
      assert all[0] == items[0];
    }
  }

  lemma {:induction false} MembersSnoc(ms: seq<Member>, m: Member)
    ensures MembersText(ms + [m]) == MembersText(ms) + (if ms == [] then "" else ",") + MemberText(m)
  {
    var all := ms + [m];
    if ms != [] {
      MembersSnoc(ms[1..], m);
      assert all[1..] == ms[1..] + [m];
      assert all[0] == ms[0];
    }
  }

  class FastWriter {
    var document: string

    constructor ()
      ensures document == []
    {
      document := [];
    }

    /** `writeValue`. */
    method WriteValue(v: JValue)
      requires Writable(v)
      modifies this
      ensures document == old(document) + Text(v)
      decreases v, 1
    {
      hide ItemsText, MembersText, NatText, Escape;
      match v
      case JNull => document := document + "null";
      case JBool(b) => document := document + (if b then "true" else "false");
      case JInt(i) =>
        var s := IntToString(i);
        document := document + s;
      case JUInt(u) =>
        var s := IntToString(u);
        document := document + s;
      case JReal(lexeme) => document := document + lexeme;
      case JString(t) =>
        var s := QuoteString(t);
        document := document + s;
      case JArray(items) => WriteArray(items);
      case JObject(ms) => WriteObject(ms);
    }

    /** The array case of `writeValue`. */
    method WriteArray(items: seq<JValue>)
      requires forall i :: 0 <= i < |items| ==> Writable(items[i])
      modifies this
      ensures document == old(document) + ("[" + ItemsText(items) + "]")
      decreases items, 0
    {
      hide Text, Writable;
      document := document + "[";
      for i := 0 to |items|
        invariant document == old(document) + "[" + ItemsText(items[..i])
      {
        ItemsSnoc(items[..i], items[i]);
        assert items[..i + 1] == items[..i] + [items[i]];
        if i > 0 {
          document := document + ",";
        }
        WriteValue(items[i]);
      }
      assert items[..|items|] == items;
      document := document + "]";
    }

    /** The object case of `writeValue`. */
    method WriteObject(ms: seq<Member>)
      requires forall i :: 0 <= i < |ms| ==> Writable(ms[i].value)
      modifies this
      ensures document == old(document) + ("{" + MembersText(ms) + "}")
      decreases ms, 0
    {
      hide Text, MemberText, Writable;
      document := document + "{";
      for i := 0 to |ms|
        invariant document == old(document) + "{" + MembersText(ms[..i])
      {
        MembersSnoc(ms[..i], ms[i]);
        assert ms[..i + 1] == ms[..i] + [ms[i]];
        if i > 0 {
          document := document + ",";
        }
        WriteMember(ms[i]);
      }
      assert ms[..|ms|] == ms;
      document := document + "}";
    }

    method WriteMember(m: Member)
      requires Writable(m.value)
      modifies this
      ensures document == old(document) + MemberText(m)
      decreases m, 0
    {
      hide Text, Writable, Quoted;
      var name := QuoteString(m.name);
      document := document + name;
      document := document + ":";
      WriteValue(m.value);
    }

    /** `write`. */
    method Write(v: JValue) returns (s: string)
      requires Writable(v)
      modifies this
      ensures s == Document(v) && document == s
    {
      document := "";
      WriteValue(v);
      document := document + "\n";
      s := document;
    }
  }

  // ------------------------------------------------------------------- reader

  lemma {:induction false} PrependTwice(a: string, b: string, r: Option<string>)
    ensures R.Prepend(a, R.Prepend(b, r)) == R.Prepend(a + b, r)
  {
    if r.Some? {
      assert a + (b + r.value) == (a + b) + r.value;
    }
  }

  /** A token as `readToken` delivers it: its kind and where it starts and ends. */
  datatype TokenAt = TokenAt(kind: R.Kind, start: nat, end: nat)

  class Reader {
    const doc: string
    const dbl: R.Doubles
    var current: nat
    var stackDepth: nat

    constructor (document: string, doubles: R.Doubles)
      ensures doc == document && dbl == doubles && current == 0 && stackDepth == 0
    {
      doc, dbl, current, stackDepth := document, doubles, 0, 0;
    }

    ghost predicate Valid()
      reads this`current
    {
      current <= |doc|
    }

    /** The input that is left. */
    ghost function Left(): string
      reads this`current
      requires Valid()
    {
      doc[current..]
    }

    /** `getNextChar`. */
    method GetNextChar() returns (c: char)
      requires Valid()
      modifies this`current
      ensures Valid()
      ensures if old(current) == |doc| then c == '\0' && current == old(current)
              else c == doc[old(current)] && current == old(current) + 1
    {
      if current == |doc| {
        return '\0';
      }
      c := doc[current];
      current := current + 1;
    }

    /** `skipSpaces`. */
    method SkipSpaces()
      requires Valid()
      modifies this`current
      ensures Valid() && old(current) <= current && Left() == R.SkipSpaces(old(Left()))
    {
      while current != |doc|
        invariant old(current) <= current <= |doc| && R.SkipSpaces(doc[current..]) == R.SkipSpaces(old(Left()))
      {
        if !R.IsSpace(doc[current]) {
          break;
        }
        assert doc[current..][1..] == doc[current + 1..];
        current := current + 1;
      }
    }

    /** `readString`: moves past the closing quote. */
    method ReadString() returns (ok: bool)
      requires Valid()
      modifies this`current
      ensures Valid() && (current - old(current), ok) == R.StringLength(old(Left()))
    {
      hide R.StringLength;
      var c := '\0';
      ghost var start := current;
      while current != |doc|
        invariant start <= current <= |doc| && c != '"'
        invariant var (n, b) := R.StringLength(doc[current..]); R.StringLength(doc[start..]) == (current - start + n, b)
        decreases |doc| - current
      {
        StringLengthAt(current);
        c := GetNextChar();
        if c == '\\' {
          var skipped := GetNextChar();
        } else if c == '"' {
          break;
        }
      }
      if current == |doc| {
        StringLengthEnd();
        assert doc[current..] == [];
      }
      ok := c == '"';
    }

    lemma StringLengthEnd()
      ensures R.StringLength([]) == (0, false)
    {
    }

    /** What the character at a position means for the length of a string. */
    lemma StringLengthAt(p: nat)
      requires p < |doc|
      ensures doc[p] == '"' ==> R.StringLength(doc[p..]) == (1, true)
      ensures doc[p] == '\\' && p + 1 == |doc| ==> R.StringLength(doc[p..]) == (1, false)
      ensures doc[p] == '\\' && p + 1 < |doc| ==>
        R.StringLength(doc[p..]) == (R.StringLength(doc[p + 2..]).0 + 2, R.StringLength(doc[p + 2..]).1)
      ensures doc[p] != '"' && doc[p] != '\\' ==>
        R.StringLength(doc[p..]) == (R.StringLength(doc[p + 1..]).0 + 1, R.StringLength(doc[p + 1..]).1)
    {
      assert doc[p..][1..] == doc[p + 1..];
      if p + 1 < |doc| {
        assert doc[p..][2..] == doc[p + 2..];
      }
    }

    /** Reads a character for `readNumber`: the cursor goes to p, and p past the character. */
    method Take(p: nat) returns (c: char, q: nat)
      requires p <= |doc|
      modifies this`current
      ensures current == p
      ensures if p < |doc| then c == doc[p] && q == p + 1 else c == '\0' && q == p
    {
      current := p;
      if p < |doc| {
        return doc[p], p + 1;
      }
      return '\0', p;
    }

    /** A digit loop of `readNumber`, from the character c that was taken at the cursor. */
    method TakeDigits(c0: char, p0: nat) returns (c: char, p: nat)
      requires current <= |doc| && (if current < |doc| then c0 == doc[current] && p0 == current + 1 else c0 == '\0' && p0 == current)
      modifies this`current
      ensures current == old(current) + R.DigitRun(doc[old(current)..])
      ensures current <= |doc| && (if current < |doc| then c == doc[current] && p == current + 1 else c == '\0' && p == current)
    {
      c, p := c0, p0;
      while '0' <= c <= '9'
        invariant old(current) <= current <= |doc|
        invariant if current < |doc| then c == doc[current] && p == current + 1 else c == '\0' && p == current
        invariant R.DigitRun(doc[old(current)..]) == current - old(current) + R.DigitRun(doc[current..])
        decreases |doc| - current
      {
        assert doc[current..][1..] == doc[current + 1..];
        c, p := Take(p);
      }
    }

    /** The cursor is at the character c, and p is the position after it. */
    ghost predicate Taken(c: char, p: nat)
      reads this`current
    {
      current <= |doc| && if current < |doc| then c == doc[current] && p == current + 1 else c == '\0' && p == current
    }

    /** The fractional part of `readNumber`. */
    method TakeFraction(c0: char, p0: nat, ghost start: nat) returns (c: char, p: nat)
      requires Taken(c0, p0) && start <= current
      modifies this`current
      ensures Taken(c, p) && current == start + R.FractionEnd(doc[start..], old(current) - start)
    {
      hide R.DigitRun;
      c, p := c0, p0;
      if c == '.' {
        assert doc[start..][current - start + 1..] == doc[current + 1..];
        c, p := Take(p);
        c, p := TakeDigits(c, p);
      }
    }

    /** The exponent of `readNumber`. */
    method TakeExponent(c0: char, p0: nat, ghost start: nat)
      requires Taken(c0, p0) && start <= current
      modifies this`current
      ensures Valid() && current == start + R.ExponentEnd(doc[start..], old(current) - start)
    {
      hide R.DigitRun;
      var c, p := c0, p0;
      ghost var r, j := doc[start..], current - start;
      if c == 'e' || c == 'E' {
        assert j + 1 < |r| ==> r[j + 1] == doc[current + 1];
        c, p := Take(p);
        if c == '+' || c == '-' {
          c, p := Take(p);
        }
        assert r[current - start..] == doc[current..];
        c, p := TakeDigits(c, p);
      }
    }

    /** `readNumber`, after the first character. */
    method ReadNumber()
      requires Valid()
      modifies this`current
      ensures Valid() && current == old(current) + R.NumberLength(old(Left()))
    {
      hide R.DigitRun, R.FractionEnd, R.ExponentEnd;
      ghost var start := current;
      var c, p := Take(current);
      c, p := TakeDigits(c, p);
      c, p := TakeFraction(c, p, start);
      TakeExponent(c, p, start);
    }

    /** `match`: the rest of a literal. */
    method Match(pattern: string) returns (ok: bool)
      requires Valid()
      modifies this`current
      ensures Valid() && ok == (pattern <= old(Left())) && current == old(current) + (if ok then |pattern| else 0)
    {
      if |doc| - current < |pattern| {
        return false;
      }
      var index := |pattern|;
      while index > 0
        invariant 0 <= index <= |pattern| && forall k :: index <= k < |pattern| ==> doc[current + k] == pattern[k]
      {
        index := index - 1;
        if doc[current + index] != pattern[index] {
          assert doc[current..][index] != pattern[index];
          return false;
        }
      }
      assert doc[current..][..|pattern|] == pattern;
      current := current + |pattern|;
      return true;
    }
  
    /** `readToken`. */
    method ReadToken() returns (t: TokenAt)
      requires Valid()
      modifies this`current
      ensures Valid() && old(current) <= t.start <= t.end == current
      ensures R.ReadToken(old(Left())) == R.Token(t.kind, doc[t.start..t.end], Left())
    {
      hide R.SkipSpaces, R.FirstToken;
      SkipSpaces();
      if current == |doc| {
        return TokenAt(R.EndOfStream, current, current);
      }
      t := FirstToken();
    }

    /** The switch of `readToken`. */
    method FirstToken() returns (t: TokenAt)
      requires current < |doc|
      modifies this`current
      ensures Valid() && t.start == old(current) < t.end == current
      ensures R.FirstToken(old(Left())) == R.Token(t.kind, doc[t.start..t.end], Left())
    {
      hide R.StringLength, R.NumberLength, R.Word, R.FirstToken, R.SimpleKind;
      var start := current;
      ghost var s := doc[start..];
      var c := GetNextChar();
      FirstIs(s);
      assert s[1..] == doc[start + 1..];
      assert doc[start..start + 1] == [c];
      var kind := R.SimpleKind(c);
      if c == '"' {
        var ok := ReadString();
        kind := if ok then R.StringToken else R.ErrorToken;
        Slices(start, current);
      } else if 0 <= DigitOf(c) || c == '-' {
        ReadNumber();
        kind := R.NumberToken;
        Slices(start, current);
      } else if c == 't' {
        kind := MatchWord("true", R.TrueToken, start);
      } else if c == 'f' {
        kind := MatchWord("false", R.FalseToken, start);
      } else if c == 'n' {
        kind := MatchWord("null", R.NullToken, start);
      }
      t := TokenAt(kind, start, current);
    }

    /** The cases of a first token. */
    lemma FirstIs(s: string)
      requires s != []
      ensures s[0] == '"' ==> var (n, ok) := R.StringLength(s[1..]);
        R.FirstToken(s) == R.Token(if ok then R.StringToken else R.ErrorToken, s[..n + 1], s[1..][n..])
      ensures 0 <= DigitOf(s[0]) || s[0] == '-' ==> var n := R.NumberLength(s[1..]);
        R.FirstToken(s) == R.Token(R.NumberToken, s[..n + 1], s[1..][n..])
      ensures s[0] == 't' ==> R.FirstToken(s) == R.Word(s, "true", R.TrueToken)
      ensures s[0] == 'f' ==> R.FirstToken(s) == R.Word(s, "false", R.FalseToken)
      ensures s[0] == 'n' ==> R.FirstToken(s) == R.Word(s, "null", R.NullToken)
      ensures !(s[0] in {'"', '-', 't', 'f', 'n'}) && DigitOf(s[0]) < 0 ==>
        R.FirstToken(s) == R.Token(R.SimpleKind(s[0]), [s[0]], s[1..])
    {
      hide R.StringLength, R.NumberLength, R.Word, R.SimpleKind;
    }

    lemma Slices(start: nat, end: nat)
      requires start < end <= |doc|
      ensures doc[start..][..end - start] == doc[start..end]
      ensures doc[start..][1..][end - start - 1..] == doc[end..]
    {
    }

    /** The rest of a literal whose first character has been read. */
    method MatchWord(word: string, kind: R.Kind, start: nat) returns (k: R.Kind)
      requires Valid() && start + 1 == current && kind in {R.TrueToken, R.FalseToken, R.NullToken}
      requires word != [] && word[0] == doc[start]
      modifies this`current
      ensures Valid() && start < current
      ensures R.Word(doc[start..], word, kind) == R.Token(k, doc[start..current], Left())
    {
      ghost var s := doc[start..];
      assert s[1..] == doc[start + 1..];
      assert word == [s[0]] + word[1..];
      var ok := Match(word[1..]);
      k := if ok then kind else R.ErrorToken;
      PrefixTail(s, word[1..]);
      if ok {
        assert s[|word|..] == doc[current..] && doc[start..current] == s[..|word|] == word;
      } else {
        assert s[..1] == doc[start..current];
      }
    }

    // ---------------------------------------------------------------- decoding

    /** `decodeNumber`. */
    method DecodeNumber(start: nat, end: nat) returns (v: JValue)
      requires start < end <= |doc|
      ensures v == R.DecodeNumber(doc[start..end])
    {
      ghost var text := doc[start..end];
      var cur := start;
      var negative := doc[cur] == '-';
      if negative {
        cur := cur + 1;
      }
      var max := if negative then MAX_INT64 + 1 else MAX_UINT64;
      var value: nat := 0;
      assert doc[cur..end] == if negative then text[1..] else text;
      ghost var goal := R.DecodeDigits(doc[cur..end], 0, max);
      while cur < end
        invariant start <= cur <= end && value <= max
        invariant goal == R.DecodeDigits(doc[cur..end], value, max)
      {
        assert doc[cur..end][1..] == doc[cur + 1..end];
        var digit := DigitOf(doc[cur]);
        cur := cur + 1;
        if digit < 0 {
          return JReal(doc[start..end]);
        }
        if value >= max / 10 {
          if value > max / 10 || cur != end || digit > max % 10 {
            return JReal(doc[start..end]);
          }
        }
        value := value * 10 + digit;
      }
      if negative && value == max {
        v := JInt(-MAX_INT64 - 1);
      } else if negative {
        v := JInt(-(value as int));
      } else if value <= MAX_INT {
        v := JInt(value);
      } else {
        v := JUInt(value);
      }
    }

    /** `decodeUnicodeEscapeSequence`. */
    method DecodeUnicodeEscape(cur: nat, end: nat) returns (u: Option<nat>)
      requires cur <= end <= |doc|
      ensures u == R.HexQuad(doc[cur..end])
    {
      ghost var b := doc[cur..end];
      if end - cur < 4 {
        return None;
      }
      var unicode := 0;
      for index := 0 to 4
        invariant forall k :: 0 <= k < index ==> R.HexValue(b[k]) >= 0
        invariant index == 0 ==> unicode == 0
        invariant index == 1 ==> unicode == R.HexValue(b[0])
        invariant index == 2 ==> unicode == R.HexValue(b[0]) * 16 + R.HexValue(b[1])
        invariant index == 3 ==> unicode == (R.HexValue(b[0]) * 16 + R.HexValue(b[1])) * 16 + R.HexValue(b[2])
        invariant index == 4 ==> R.HexQuad(b) == Some(unicode)
      {
        var d := R.HexValue(doc[cur + index]);
        assert doc[cur + index] == b[index];
        if d < 0 {
          return None;
        }
        unicode := unicode * 16 + d;
      }
      u := Some(unicode);
    }

    /** `decodeUnicodeCodePoint`. */
    method DecodeCodePoint(cur: nat, end: nat) returns (u: Option<(nat, nat)>)
      requires cur <= end <= |doc|
      ensures u == R.CodePoint(doc[cur..end])
    {
      ghost var b := doc[cur..end];
      var hi := DecodeUnicodeEscape(cur, end);
      if hi == None {
        return None;
      }
      if 0xD800 <= hi.value <= 0xDBFF {
        if end - (cur + 4) < 6 {
          return None;
        }
        if doc[cur + 4] == '\\' && doc[cur + 5] == 'u' {
          assert b[6..] == doc[cur + 6..end];
          var lo := DecodeUnicodeEscape(cur + 6, end);
          if lo == None {
            return None;
          }
          return Some((0x10000 + hi.value % 0x400 * 0x400 + lo.value % 0x400, 10));
        }
        return None;
      }
      return Some((hi.value, 4));
    }

    /** An escape of `decodeString`: the characters it stands for and how many it takes. */
    method DecodeEscape(cur: nat, stop: nat) returns (e: Option<(string, nat)>)
      requires cur < stop <= |doc| && doc[cur] == '\\'
      ensures e.Some? ==> 0 < e.value.1 <= stop - cur
      ensures R.DecodeBody(doc[cur..stop]) ==
        if e.None? then None else R.Prepend(e.value.0, R.DecodeBody(doc[cur + e.value.1..stop]))
    {
      hide R.CodePoint, R.Utf8, R.SimpleEscape;
      ghost var b := doc[cur..stop];
      if cur + 1 == stop {
        return None;
      }
      assert b[2..] == doc[cur + 2..stop];
      if doc[cur + 1] == 'u' {
        var u := DecodeCodePoint(cur + 2, stop);
        if u == None {
          return None;
        }
        assert b[2 + u.value.1..] == doc[cur + 2 + u.value.1..stop];
        return Some((R.Utf8(u.value.0), 2 + u.value.1));
      }
      var c := R.SimpleEscape(doc[cur + 1]);
      if c == None {
        return None;
      }
      return Some(([c.value], 2));
    }

    /** `decodeString`. */
    method DecodeString(start: nat, end: nat) returns (r: Option<string>)
      requires start + 2 <= end <= |doc|
      ensures r == R.DecodeString(doc[start..end])
    {
      hide R.DecodeBody;
      var decoded: string := [];
      var cur := start + 1;
      var stop := end - 1;
      Inside(doc, start, end);
      ghost var goal := R.DecodeBody(doc[cur..stop]);
      NothingPrepended(goal);
      while cur != stop
        invariant start < cur <= stop && goal == R.Prepend(decoded, R.DecodeBody(doc[cur..stop]))
        decreases stop - cur
      {
        var piece: string, n := [doc[cur]], 1;
        PlainStep(doc[cur..stop]);
        if doc[cur] == '"' {
          break;
        }
        if doc[cur] == '\\' {
          var e := DecodeEscape(cur, stop);
          if e == None {
            return None;
          }
          piece, n := e.value.0, e.value.1;
        } else {
          assert doc[cur..stop][1..] == doc[cur + 1..stop];
        }
        PrependTwice(decoded, piece, R.DecodeBody(doc[cur + n..stop]));
        decoded := decoded + piece;
        cur := cur + n;
      }
      NothingAppended(decoded, doc[cur..stop]);
      r := Some(decoded);
    }

    // ------------------------------------------------------ recursive descent

    /** The method's outcome is the function's on the input that was left, with the cursor after the value. */
    ghost predicate Follows(res: R.Result<JValue>, spec: R.Result<JValue>)
      reads this`current
    {
      Valid() && res == spec && (spec.Done? ==> Left() == spec.rest)
    }

    /** `readValue`. */
    method ReadValue() returns (res: R.Result<JValue>)
      requires Valid()
      modifies this
      ensures Follows(res, R.ReadValue(old(Left()), old(stackDepth), dbl))
      ensures res.Done? ==> stackDepth == old(stackDepth)
      decreases |doc| - current, 2
    {
      hide R.ReadToken, R.ReadItems, R.ReadMembers, R.DecodeString, R.DecodeNumber, R.SkipSpaces;
      if stackDepth >= R.STACK_LIMIT {
        return R.StackLimit;
      }
      stackDepth := stackDepth + 1;
      var token := ReadToken();
      match token.kind {
        case ObjectBegin =>
          res := ReadObject();
        case ArrayBegin =>
          res := ReadArray();
        case NumberToken =>
          var v := DecodeNumber(token.start, token.end);
          if v.JReal? && !dbl(doc[token.start..token.end]) {
            return R.SyntaxError;
          }
          res := R.Done(v, doc[current..]);
        case StringToken =>
          var s := DecodeString(token.start, token.end);
          if s == None {
            return R.SyntaxError;
          }
          res := R.Done(JString(s.value), doc[current..]);
        case TrueToken =>
          res := R.Done(JBool(true), doc[current..]);
        case FalseToken =>
          res := R.Done(JBool(false), doc[current..]);
        case NullToken =>
          res := R.Done(JNull, doc[current..]);
        case _ =>
          return R.SyntaxError;
      }
      if res.Done? {
        stackDepth := stackDepth - 1;
      }
    }

    /** `readArray`, after the bracket. */
    method ReadArray() returns (res: R.Result<JValue>)
      requires Valid()
      modifies this
      ensures var s := R.SkipSpaces(old(Left()));
        Follows(res, if s != [] && s[0] == ']' then R.Done(JArray([]), s[1..]) else R.ReadItems(s, old(stackDepth), dbl, []))
      ensures res.Done? ==> stackDepth == old(stackDepth)
      decreases |doc| - current, 5
    {
      hide R.ReadToken, R.ReadValue, R.SkipSpaces;
      SkipSpaces();
      if current < |doc| && doc[current] == ']' {
        ghost var s := doc[current..];
        current := current + 1;
        assert doc[current..] == s[1..];
        return R.Done(JArray([]), doc[current..]);
      }
      var items: seq<JValue> := [];
      ghost var goal := R.ReadItems(doc[current..], stackDepth, dbl, []);
      while true
        invariant Valid() && old(current) <= current && stackDepth == old(stackDepth)
        invariant goal == R.ReadItems(doc[current..], stackDepth, dbl, items)
        decreases |doc| - current
      {
        ghost var before := current;
        res := ReadValue();
        if !res.Done? {
          return;
        }
        items := items + [res.value];
        var token := ReadToken();
        if token.kind == R.ArrayEnd {
          return R.Done(JArray(items), doc[current..]);
        }
        if token.kind != R.Comma {
          return R.SyntaxError;
        }
        assert |doc[current..]| < |doc[before..]|;
      }
    }

    /** `readObject`, after the brace. */
    method ReadObject() returns (res: R.Result<JValue>)
      requires Valid()
      modifies this
      ensures Follows(res, R.ReadMembers(old(Left()), old(stackDepth), dbl, [], []))
      ensures res.Done? ==> stackDepth == old(stackDepth)
      decreases |doc| - current, 5
    {
      hide R.ReadToken, R.ReadValue, R.DecodeString, R.Insert;
      var ms: seq<Member>, name: string := [], [];
      ghost var goal := R.ReadMembers(doc[current..], stackDepth, dbl, [], []);
      while true
        invariant Valid() && old(current) <= current && stackDepth == old(stackDepth)
        invariant goal == R.ReadMembers(doc[current..], stackDepth, dbl, ms, name)
        decreases |doc| - current
      {
        ghost var before := current;
        var token := ReadToken();
        if token.kind == R.ObjectEnd && name == [] {
          return R.Done(JObject(ms), doc[current..]);
        }
        if token.kind != R.StringToken {
          return R.SyntaxError;
        }
        var s := DecodeString(token.start, token.end);
        if s == None {
          return R.SyntaxError;
        }
        name := s.value;
        var colon := ReadToken();
        if colon.kind != R.Colon {
          return R.SyntaxError;
        }
        assert |doc[current..]| < |doc[before..]|;
        res := ReadValue();
        if !res.Done? {
          return;
        }
        ms := R.Insert(ms, name, res.value);
        var comma := ReadToken();
        if comma.kind == R.ObjectEnd {
          return R.Done(JObject(ms), doc[current..]);
        }
        if comma.kind != R.Comma {
          return R.SyntaxError;
        }
        assert |doc[current..]| < |doc[before..]|;
      }
    }
  }

  lemma Inside(doc: string, start: nat, end: nat)
    requires start + 2 <= end <= |doc|
    ensures doc[start..end][1..|doc[start..end]| - 1] == doc[start + 1..end - 1]
  {
    var t := doc[start..end];
    var u, v := t[1..|t| - 1], doc[start + 1..end - 1];
    assert forall i :: 0 <= i < |u| ==> u[i] == t[i + 1] == doc[start + i + 1] == v[i];
  }

  lemma PlainStep(b: string)
    requires b != []
    ensures b[0] != '"' && b[0] != '\\' ==> R.DecodeBody(b) == R.Prepend([b[0]], R.DecodeBody(b[1..]))
  {
  }

  lemma NothingAppended(decoded: string, b: string)
    requires b == [] || b[0] == '"'
    ensures R.Prepend(decoded, R.DecodeBody(b)) == Some(decoded)
  {
    assert decoded + [] == decoded;
  }

  lemma NothingPrepended(r: Option<string>)
    ensures R.Prepend([], r) == r
  {
    if r.Some? {
      assert [] + r.value == r.value;
    }
  }

  lemma PrefixTail(s: string, t: string)
    requires s != []
    ensures t <= s[1..] <==> [s[0]] + t <= s
  {
    assert s == [s[0]] + s[1..];
    if [s[0]] + t <= s {
      assert s[1..][..|t|] == ([s[0]] + t)[1..] == t;
    }
  }

  /** `Reader::parse` of a document. */
  method Parse(document: string, dbl: R.Doubles) returns (res: R.Result<JValue>)
    ensures res == R.Parse(document, dbl)
  {
    var reader := new Reader(document, dbl);
    assert document[0..] == document;
    res := reader.ReadValue();
  }

  /** Writing a tree and parsing the document gives the tree up to the integer tag, or the stack limit. */
  method WriteAndParse(v: JValue, dbl: R.Doubles) returns (res: R.Result<JValue>)
    requires WellFormed(v)
    ensures if Fits(v, 1000) then res.Done? && SameTree(v, res.value) && ReaderTags(res.value) else res.StackLimit?
  {
    var writer := new FastWriter();
    WellFormedWritable(v);
    var document := writer.Write(v);
    res := Parse(document, dbl);
    JsonRoundTrip.WriteThenParse(v, dbl);
  }
}
