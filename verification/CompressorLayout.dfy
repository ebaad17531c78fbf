/**
 The binary layout of compressed tables (libs/json/json_compressor.h): length-prefixed
 records for fields, cells and dictionary words behind a twelve-byte header.
 */
module CompressorLayout {
  import opened Sequences
  import opened Wrappers
  import opened Bitbase
  import opened Compressor
  import opened Json
  import JsonReader

  // ---------------------------------------------------------------- records

  const SIZE_BYTES: nat := 2
  const SIZE_LIMIT: nat := 0x1_0000

  function Record(s: string, w: nat): string {
    Num(|s|, w) + s
  }

  function Records(ss: seq<string>, w: nat): string {
    if ss == [] then "" else Record(ss[0], w) + Records(ss[1..], w)
  }

  lemma {:induction false} RecordsConcat(a: seq<string>, b: seq<string>, w: nat)
    ensures Records(a + b, w) == Records(a, w) + Records(b, w)
  {
    hide Record;
    if a == [] {
      assert a + b == b;
    } else {
      assert (a + b)[1..] == a[1..] + b;
      RecordsConcat(a[1..], b, w);
    }
  }

  lemma RecordsSnoc(a: seq<string>, s: string, w: nat)
    ensures Records(a + [s], w) == Records(a, w) + Record(s, w)
  {
    hide Record;
    RecordsConcat(a, [s], w);
    assert [s][1..] == [];
    assert Records([s], w) == Record(s, w) + "" == Record(s, w);
  }

  predicate AllBelow(ss: seq<string>, n: nat) {
    forall i :: 0 <= i < |ss| ==> |ss[i]| < n
  }

  // ----------------------------------------------------------------- layout

  function Longest(ws: seq<string>): (n: nat)
    ensures forall i :: 0 <= i < |ws| ==> |ws[i]| <= n
    ensures n == 0 || exists i :: 0 <= i < |ws| && |ws[i]| == n
  {
    if ws == [] then 0
    else
      var m := Longest(ws[..|ws| - 1]);
      if |ws[|ws| - 1]| > m then |ws[|ws| - 1]| else m
  }

  /** `sz_of_index`: the bytes of a word's length. */
  function IndexWidth(longest: nat): nat {
    if longest < 255 then 1 else if longest < 65535 then 2 else if longest < 16777215 then 3 else 4
  }

  /** The bytes written before any row. */
  function Preamble(fields: seq<string>): string {
    " #@" + Num(SIZE_BYTES, 1) + Num(|fields|, SIZE_BYTES) + Records(fields, SIZE_BYTES)
  }

  /** The offset of the dictionary, which the header opens with. */
  function DataSize(fields: seq<string>, cells: seq<string>): nat {
    |Preamble(fields)| + |Records(cells, SIZE_BYTES)| + 6
  }

  function Layout(fields: seq<string>, cells: seq<string>, words: seq<string>): string {
    var w := IndexWidth(Longest(words));
    Num(DataSize(fields, cells), 4) + Num(w, 1) + Num(INDEX_BYTES, 1)
    + (Preamble(fields) + Records(cells, SIZE_BYTES)) + Records(words, w)
  }

  /** The size bounds of the format. */
  predicate FitsFormat(fields: seq<string>, cells: seq<string>, words: seq<string>) {
    && |fields| < SIZE_LIMIT && AllBelow(fields, SIZE_LIMIT)
    && AllBelow(cells, SIZE_LIMIT)
    && |words| <= MAX_WORDS && AllBelow(words, MAX_WORDS)
    && DataSize(fields, cells) < 0x1_0000_0000
  }

  /** A word's length fits the width chosen for the longest. */
  lemma WidthHolds(words: seq<string>)
    requires AllBelow(words, MAX_WORDS)
    ensures 1 <= IndexWidth(Longest(words)) <= 4
    ensures AllBelow(words, Pow256(IndexWidth(Longest(words))))
  {
    assert Pow256(1) == 256 && Pow256(2) == 65536;
    assert Pow256(3) == 256 * 65536 && Pow256(4) == 256 * Pow256(3);
  }

  // ------------------------------------------------------------------- rows

  /** Full rows only. */
  predicate Whole(n: nat, w: nat) {
    n == 0 || (n >= w > 0 && Whole(n - w, w))
  }

  function Grouped(ts: seq<string>, w: nat): (rows: seq<seq<string>>)
    ensures Wide(rows, w)
  {
    if w == 0 || |ts| < w then [] else [ts[..w]] + Grouped(ts[w..], w)
  }

  predicate Wide(rows: seq<seq<string>>, w: nat) {
    forall i :: 0 <= i < |rows| ==> |rows[i]| == w
  }

  /** Rows of one width are recovered from their cells in order. */
  lemma {:induction false} GroupedFlat(rows: seq<seq<string>>, w: nat)
    requires Wide(rows, w)
    ensures w > 0 ==> Grouped(Flat(rows), w) == rows
    ensures Whole(|Flat(rows)|, w)
  {
    if rows != [] {
      assert rows == [rows[0]] + rows[1..];
      FlatCons(rows[0], rows[1..]);
      GroupedFlat(rows[1..], w);
      assert Flat(rows)[..w] == rows[0] && Flat(rows)[w..] == Flat(rows[1..]);
    }
  }

  // ------------------------------------------------------------------- JSON

  function Find(ms: seq<Member>, name: string): Option<JValue> {
    if ms == [] then None else if ms[0].name == name then Some(ms[0].value) else Find(ms[1..], name)
  }

  /** The text of a field of a row: "" when it is missing or not a string. */
  function FieldText(v: JValue, name: string): string {
    if v.JObject? && Find(v.members, name).Some? && Find(v.members, name).value.JString?
    then Find(v.members, name).value.s else ""
  }

  /** The first member of a name. */
  predicate FirstAt(ms: seq<Member>, name: string, i: int) {
    0 <= i < |ms| && ms[i].name == name && forall j :: 0 <= j < i ==> ms[j].name != name
  }

  /** A lookup finds the first member of the name, and nothing just when there is none. */
  lemma {:induction false} FindIs(ms: seq<Member>, name: string)
    ensures forall v :: Find(ms, name) == Some(v) <==> exists i :: FirstAt(ms, name, i) && ms[i].value == v
    ensures Find(ms, name) == None <==> forall i :: 0 <= i < |ms| ==> ms[i].name != name
  {
    if ms != [] {
      var t := ms[1..];
      if ms[0].name == name {
        assert FirstAt(ms, name, 0);
        assert forall i :: FirstAt(ms, name, i) ==> i == 0;
      } else {
        FindIs(t, name);
        assert forall i :: FirstAt(ms, name, i) ==> FirstAt(t, name, i - 1) && ms[i] == t[i - 1];
        assert forall i :: FirstAt(t, name, i) ==> FirstAt(ms, name, i + 1) && ms[i + 1] == t[i];
        assert forall i :: 0 < i < |ms| ==> ms[i] == t[i - 1];
        assert forall i :: 0 <= i < |t| ==> t[i] == ms[i + 1];
      }
    }
  }

  /** The field is a string of the row. */
  ghost predicate HasText(v: JValue, name: string, s: string) {
    v.JObject? && exists i :: FirstAt(v.members, name, i) && v.members[i].value == JString(s)
  }

  lemma FieldTextIs(v: JValue, name: string)
    ensures forall s :: HasText(v, name, s) ==> FieldText(v, name) == s
    ensures (forall s :: !HasText(v, name, s)) ==> FieldText(v, name) == ""
  {
    hide Find, FirstAt;
    if v.JObject? {
      FindIs(v.members, name);
      var f := Find(v.members, name);
      forall s | HasText(v, name, s) ensures FieldText(v, name) == s {
        assert f == Some(JString(s));
      }
      if f.Some? && f.value.JString? {
        assert HasText(v, name, f.value.s);
      }
    }
  }

  /** A row that has just the listed fields, each with the text it has in another row, or "" if it has none there. */
  ghost predicate Restored(v: JValue, fields: seq<string>, w: JValue) {
    && w.JObject? && Sorted(w.members)
    && (forall i :: 0 <= i < |w.members| ==> w.members[i].name in fields)
    && (forall name, s :: name in fields && HasText(v, name, s) ==> HasText(w, name, s))
    && (forall name :: name in fields && (forall s :: !HasText(v, name, s)) ==> HasText(w, name, ""))
  }

  function RowTexts(v: JValue, fields: seq<string>): (ts: seq<string>)
    ensures |ts| == |fields|
  {
    seq(|fields|, i requires 0 <= i < |fields| => FieldText(v, fields[i]))
  }

  function TableTexts(rows: seq<JValue>, fields: seq<string>): (ts: seq<seq<string>>)
    ensures |ts| == |rows| && Wide(ts, |fields|)
  {
    seq(|rows|, i requires 0 <= i < |rows| => RowTexts(rows[i], fields))
  }

  /** How many items come before the first that `isMember` throws on. */
  function GoodRows(rows: seq<JValue>): (n: nat)
    ensures n <= |rows| && forall i :: 0 <= i < n ==> rows[i].JObject? || rows[i].JNull?
    ensures n < |rows| ==> !rows[n].JObject? && !rows[n].JNull?
  {
    if rows == [] || (!rows[0].JObject? && !rows[0].JNull?) then 0 else 1 + GoodRows(rows[1..])
  }

  /** What is returned when an item throws: nothing of the rows in the counting pass, else the rows before it. */
  function CutShort(rows: seq<JValue>, fields: seq<string>, dindex: bool): string {
    Preamble(fields) + if dindex then "" else Records(Cells(Flat(TableTexts(rows, fields)), COUNTED, false).cells, SIZE_BYTES)
  }

  /** The bytes of a table. */
  function Compressed(rows: seq<JValue>, fields: seq<string>, dindex: bool): string {
    var texts := Flat(TableTexts(rows, fields));
    var t := Cells(texts, Counted(texts, dindex), dindex);
    Layout(fields, t.cells, t.dict.words)
  }

  /** `row[fields[i]] = text` for every field in turn. */
  function RowMembers(fields: seq<string>, ts: seq<string>): seq<Member>
    requires |fields| == |ts|
  {
    if fields == [] then []
    else
      var n := |fields| - 1;
      JsonReader.Insert(RowMembers(fields[..n], ts[..n]), fields[n], JString(ts[n]))
  }

  function RowObjects(fields: seq<string>, rows: seq<seq<string>>): seq<JValue>
    requires Wide(rows, |fields|)
  {
    seq(|rows|, i requires 0 <= i < |rows| => JObject(RowMembers(fields, rows[i])))
  }

  /** Appending to a null value makes it an array; with no row it stays null. */
  function Appended(rows: seq<JValue>): JValue {
    if rows == [] then JNull else JArray(rows)
  }

  lemma {:induction false} FindInsert(ms: seq<Member>, name: string, v: JValue, other: string)
    ensures Find(JsonReader.Insert(ms, name, v), other) == if other == name then Some(v) else Find(ms, other)
  {
    if ms != [] && ms[0].name != name && KeyLess(ms[0].name, name) {
      FindInsert(ms[1..], name, v, other);
    }
  }

  /** A restored row has every field of the list, each with the original's text, and no other. */
  lemma {:induction false} RowRestored(v: JValue, fields: seq<string>, name: string)
    ensures Find(RowMembers(fields, RowTexts(v, fields)), name)
         == if name in fields then Some(JString(FieldText(v, name))) else None
  {
    hide FieldText, JsonReader.Insert, Find;
    if fields == [] {
      FindNone(name);
    } else {
      var n := |fields| - 1;
      var init := fields[..n];
      assert RowTexts(v, fields)[..n] == RowTexts(v, init);
      RowRestored(v, init, name);
      FindInsert(RowMembers(init, RowTexts(v, init)), fields[n], JString(FieldText(v, fields[n])), name);
      assert fields == init + [fields[n]];
    }
  }

  lemma {:induction false} InsertSorted(ms: seq<Member>, name: string, v: JValue)
    requires Sorted(ms)
    ensures Sorted(JsonReader.Insert(ms, name, v))
    ensures forall m :: m in JsonReader.Insert(ms, name, v) ==> m == Member(name, v) || m in ms
  {
    hide KeyLess;
    if ms != [] {
      var head, tail := ms[0], ms[1..];
      assert forall m :: m in tail ==> KeyLess(head.name, m.name);
      if head.name == name {
        InsertFirst(Member(name, v), tail);
      } else if KeyLess(head.name, name) {
        InsertSorted(tail, name, v);
        InsertFirst(head, JsonReader.Insert(tail, name, v));
      } else {
        KeyLessTotal(head.name, name);
        forall m | m in tail ensures KeyLess(name, m.name) {
          KeyLessTransitive(name, head.name, m.name);
        }
        InsertFirst(Member(name, v), ms);
      }
    }
  }

  lemma InsertFirst(m: Member, ms: seq<Member>)
    requires Sorted(ms) && forall k :: k in ms ==> KeyLess(m.name, k.name)
    ensures Sorted([m] + ms)
  {
    hide KeyLess;
  }

  lemma {:induction false} RowSorted(fields: seq<string>, ts: seq<string>)
    requires |fields| == |ts|
    ensures Sorted(RowMembers(fields, ts))
  {
    hide KeyLess;
    if fields != [] {
      var n := |fields| - 1;
      RowSorted(fields[..n], ts[..n]);
      InsertSorted(RowMembers(fields[..n], ts[..n]), fields[n], JString(ts[n]));
    }
  }

  lemma RowIsRestored(v: JValue, fields: seq<string>)
    ensures Restored(v, fields, JObject(RowMembers(fields, RowTexts(v, fields))))
  {
    hide FieldText, Find, RowMembers, RowTexts, Sorted, FirstAt;
    var ms := RowMembers(fields, RowTexts(v, fields));
    var w := JObject(ms);
    RowSorted(fields, RowTexts(v, fields));
    forall name | name in fields ensures HasText(w, name, FieldText(v, name)) {
      RowRestored(v, fields, name);
      FindIs(ms, name);
    }
    forall name ensures forall s :: HasText(v, name, s) ==> FieldText(v, name) == s {
      FieldTextIs(v, name);
    }
    forall name | name in fields && forall s :: !HasText(v, name, s) ensures HasText(w, name, "") {
      FieldTextIs(v, name);
    }
    forall i | 0 <= i < |ms| ensures ms[i].name in fields {
      RowRestored(v, fields, ms[i].name);
      FindIs(ms, ms[i].name);
    }
  }

  lemma FindNone(name: string)
    ensures Find([], name) == None
  {
  }

  // ----------------------------------------------------------------- bounds

  function Total(ss: seq<string>): nat {
    if ss == [] then 0 else Total(ss[..|ss| - 1]) + |ss[|ss| - 1]| + SIZE_BYTES
  }

  lemma {:induction false} RecordsSize(ss: seq<string>)
    ensures |Records(ss, SIZE_BYTES)| == Total(ss)
  {
    hide Records;
    if ss == [] {
      NoRecordSize();
    } else {
      var n := |ss| - 1;
      assert ss == ss[..n] + [ss[n]];
      RecordsSnoc(ss[..n], ss[n], SIZE_BYTES);
      RecordsSize(ss[..n]);
    }
  }

  lemma NoRecordSize()
    ensures Records([], SIZE_BYTES) == ""
  {
  }

  /** A cell adds no more words than it has characters, none longer than itself. */
  lemma {:induction false} RenderWords(ks: seq<Token>, d: Dict, counts: Counts, dindex: bool, n: nat)
    requires AllClean(ks) && AllBelow(d.words, n) && |Meaning(ks)| < n
    ensures AllBelow(Render(ks, d, counts, dindex).dict.words, n)
    ensures |Render(ks, d, counts, dindex).dict.words| <= |d.words| + |Meaning(ks)|
  {
    hide Meaning, Indexed, Num;
    if ks != [] {
      var init, k := ks[..|ks| - 1], ks[|ks| - 1];
      assert ks == init + [k];
      MeaningConcat(init, [k]);
      MeaningOne(k);
      assert Clean(k);
      RenderWords(init, d, counts, dindex, n);
    }
  }

  lemma {:induction false} CellsBounds(texts: seq<string>, counts: Counts, dindex: bool, n: nat)
    requires AllBelow(texts, n)
    ensures var t := Cells(texts, counts, dindex);
      && AllBelow(t.dict.words, n)
      && |t.dict.words| <= Total(texts) && Total(t.cells) <= 5 * Total(texts)
  {
    hide Render, Tokens, Meaning;
    if texts != [] {
      var init, t := texts[..|texts| - 1], texts[|texts| - 1];
      CellsBounds(init, counts, dindex, n);
      var d := Cells(init, counts, dindex);
      TokensOf(t);
      RenderWords(Tokens(t), d.dict, counts, dindex, n);
      RenderSize(Tokens(t), d.dict, counts, dindex);
      var e := Render(Tokens(t), d.dict, counts, dindex);
      assert (d.cells + [e.text])[..|d.cells|] == d.cells;
    }
  }

  lemma TokensOf(t: string)
    ensures AllClean(Tokens(t)) && Meaning(Tokens(t)) == t
  {
    hide TokensFrom, Meaning;
    TokensClean(t, -1);
    TokensFromMean(t, -1);
    assert Pending(t, -1) + t[0..] == t;
  }

  /** A table whose texts have at most 13107 characters, and which is not enormous, fits the format. */
  lemma SmallTableFits(fields: seq<string>, texts: seq<string>, counts: Counts, dindex: bool)
    requires |fields| < SIZE_LIMIT && AllBelow(fields, SIZE_LIMIT) && AllBelow(texts, 13108)
    requires Total(fields) + 5 * Total(texts) + 12 < MAX_WORDS
    ensures var t := Cells(texts, counts, dindex); FitsFormat(fields, t.cells, t.dict.words)
  {
    hide Cells, Records, Num;
    CellsBounds(texts, counts, dindex, 13108);
    var t := Cells(texts, counts, dindex);
    RecordsSize(fields);
    RecordsSize(t.cells);
    ShortCells(texts, counts, dindex);
  }

  lemma {:induction false} ShortCells(texts: seq<string>, counts: Counts, dindex: bool)
    requires AllBelow(texts, 13108)
    ensures AllBelow(Cells(texts, counts, dindex).cells, SIZE_LIMIT)
  {
    hide Render, Tokens, Meaning;
    if texts != [] {
      var init, t := texts[..|texts| - 1], texts[|texts| - 1];
      ShortCells(init, counts, dindex);
      TokensOf(t);
      RenderSize(Tokens(t), Cells(init, counts, dindex).dict, counts, dindex);
    }
  }
}
