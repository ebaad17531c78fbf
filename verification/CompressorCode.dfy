/** `json::compressor` as it works: two passes that append, and a cursor that reads back. */
module CompressorCode {
  import opened Sequences
  import opened Wrappers
  import opened Bitbase
  import opened Compressor
  import opened CompressorLayout
  import opened Json
  import JsonReader

  // ---------------------------------------------------------------- writing

  lemma RenderSnoc(ks: seq<Token>, k: Token, d: Dict, c: Counts, dindex: bool)
    ensures var e := Render(ks, d, c, dindex); var f := Emit(k, e.dict, c, dindex);
            Render(ks + [k], d, c, dindex) == Emitted(e.text + f.text, f.dict)
    ensures CountTokens(ks + [k], c) == CountToken(k, CountTokens(ks, c))
  {
    assert (ks + [k])[..|ks|] == ks;
  }

  /** The state captured by the lambdas of `compress`. */
  class Writer {
    const dindex: bool
    var counts: Counts
    var index: map<string, nat>
    var words: seq<string>
    var newText: string

    constructor (dindex: bool)
      ensures this.dindex == dindex && counts == COUNTED && Dictionary() == EMPTY
    {
      this.dindex := dindex;
      counts, index, words, newText := map["#" := 2, "@" := 2], map[], [], "";
    }

    ghost function Dictionary(): Dict
      reads this
    {
      Dict(index, words)
    }

    /** The state after these emissions of a cell, from the dictionary d and the counts c before it. */
    ghost predicate After(a: bool, done: seq<Token>, d: Dict, c: Counts)
      reads this
    {
      if a then Emitted(newText, Dictionary()) == Render(done, d, c, dindex) && counts == c
      else counts == CountTokens(done, c) && Dictionary() == d
    }

    /** `replace_by_index`: the first pass counts long words, the second writes a word or its number. */
    method ReplaceByIndex(a: bool, word: string, r: char, ghost done: seq<Token>, ghost d: Dict, ghost c: Counts)
      requires After(a, done, d, c) && Marker(r)
      modifies this
      ensures After(a, done + [Word(word, r == '#')], d, c)
    {
      hide Render, CountTokens, Num;
      RenderSnoc(done, Word(word, r == '#'), d, c, dindex);
      if word == [] {
        return;
      }
      var ah := false;
      if a && dindex {
        ah := if word in counts then counts[word] < 2 else true;
      }
      if (|word| <= INDEX_BYTES || ah) && word[0] != '#' && word[0] != '@' {
        if !a {
          return;
        }
        if r == '#' {
          newText := newText + " ";
        }
        newText := newText + word;
      } else {
        if !a {
          counts := counts[word := (if word in counts then counts[word] else 0) + 1];
          return;
        }
        ghost var before := newText;
        newText := newText + [r];
        var number;
        if word in index {
          number := NumericToChars(index[word], INDEX_BYTES);
        } else {
          number := NumericToChars(|words|, INDEX_BYTES);
          index, words := index[word := |words|], words + [word];
        }
        newText := newText + number;
        assert newText == before + ([r] + number);
      }
    }

    /** The writing of a blank. */
    method AddBlank(a: bool, ghost done: seq<Token>, ghost d: Dict, ghost c: Counts)
      requires After(a, done, d, c)
      modifies this
      ensures After(a, done + [Blank], d, c)
    {
      hide Render, CountTokens;
      RenderSnoc(done, Blank, d, c, dindex);
      newText := newText + " ";
    }

    /** The word before the separator found, if there is one. */
    method WordBefore(a: bool, t: string, prev: int, found: nat, ghost done: seq<Token>, ghost d: Dict, ghost c: Counts)
      requires After(a, done, d, c) && -1 <= prev < found < |t|
      modifies this
      ensures After(a, done + Between(t, prev, found), d, c)
    {
      hide After;
      if prev != -1 {
        var lz := found - prev - 1;
        if lz > 0 {
          var del := if t[prev] != ' ' then '@' else '#';
          ReplaceByIndex(a, t[prev + 1..prev + 1 + lz], del, done, d, c);
          assert [Word(t[prev + 1..prev + 1 + lz], del == '#')] == Between(t, prev, found);
        } else {
          assert done + Between(t, prev, found) == done;
        }
      } else if found != 0 {
        ReplaceByIndex(a, t[..found], '@', done, d, c);
        assert [Word(t[..found], false)] == Between(t, prev, found);
      } else {
        assert done + Between(t, prev, found) == done;
      }
    }

    /** The separator itself, and the blanks that no later word will carry. */
    method AtSeparator(a: bool, t: string, prev: int, found: nat, ghost done: seq<Token>, ghost d: Dict, ghost c: Counts)
      requires After(a, done, d, c) && -1 <= prev < found < |t|
      requires prev == -1 && found > 0 ==> t[found - 1] != ' '
      modifies this
      ensures After(a, done + Separator(t, prev, found), d, c)
    {
      hide After;
      if t[found] != ' ' {
        var del := if prev == -1 || t[found - 1] != ' ' then '@' else '#';
        ReplaceByIndex(a, t[found..found + 1], del, done, d, c);
        assert t[found..found + 1] == [t[found]];
        assert [Word([t[found]], del == '#')] + [] == Separator(t, prev, found);
        assert [Word([t[found]], del == '#')] + [] == [Word([t[found]], del == '#')];
      } else {
        ghost var all := done;
        if prev != -1 && t[prev] == ' ' && found - prev - 1 == 0 {
          AddBlank(a, done, d, c);
          all := done + [Blank];
        }
        if found == |t| - 1 {
          AddBlank(a, all, d, c);
          all := all + [Blank];
        }
        assert all == done + Separator(t, prev, found);
      }
    }

    /** One pass of the loop over separators. */
    method Advance(a: bool, t: string, prev: int, found: nat, ghost done: seq<Token>, ghost d: Dict, ghost c: Counts)
      returns (ghost next: seq<Token>)
      requires After(a, done, d, c) && -1 <= prev < found < |t| && found == NextBasic(t, prev + 1)
      modifies this
      ensures After(a, next, d, c) && done + TokensFrom(t, prev) == next + TokensFrom(t, found)
    {
      hide After, Between, Separator, TokensFrom;
      NotBlank(t, prev, found);
      TokensFromCases(t, prev, found);
      WordBefore(a, t, prev, found, done, d, c);
      next := done + Between(t, prev, found);
      AtSeparator(a, t, prev, found, next, d, c);
      next := next + Separator(t, prev, found);
    }

    /** The word after the last separator. */
    method Finish(a: bool, t: string, prev: int, ghost done: seq<Token>, ghost d: Dict, ghost c: Counts)
      requires After(a, done, d, c) && -1 <= prev < |t| && NextBasic(t, prev + 1) == |t|
      modifies this
      ensures After(a, done + TokensFrom(t, prev), d, c)
    {
      hide After, TokensFrom;
      TokensFromCases(t, prev, |t|);
      if prev < |t| - 1 {
        var del := if prev == -1 || t[prev] != ' ' then '@' else '#';
        ReplaceByIndex(a, t[prev + 1..], del, done, d, c);
        assert t[prev + 1..] == t[prev + 1..|t|];
        assert [Word(t[prev + 1..|t|], del == '#')] == Between(t, prev, |t|);
      } else {
        assert done + Between(t, prev, |t|) == done;
      }
    }

    lemma StartsEmpty(a: bool, d: Dict, c: Counts)
      requires newText == "" && Dictionary() == d && counts == c
      ensures After(a, [], d, c)
    {
    }

    /** The scan of one text, the same in both passes. */
    method ProcessText(a: bool, t: string)
      modifies this
      ensures a ==> Emitted(newText, Dictionary()) == Render(Tokens(t), old(Dictionary()), counts, dindex)
                    && counts == old(counts)
      ensures !a ==> counts == CountTokens(Tokens(t), old(counts)) && Dictionary() == old(Dictionary())
    {
      newText := "";
      ghost var d, c := Dictionary(), counts;
      StartsEmpty(a, d, c);
      ghost var done: seq<Token> := [];
      var found, prev := NextBasic(t, 0), -1;
      assert Tokens(t) == done + TokensFrom(t, prev);
      while found < |t|
        invariant -1 <= prev < |t| && found == NextBasic(t, prev + 1)
        invariant Tokens(t) == done + TokensFrom(t, prev) && After(a, done, d, c)
        decreases |t| - prev
      {
        done := Advance(a, t, prev, found, done, d, c);
        prev := found;
        found := NextBasic(t, found + 1);
      }
      Finish(a, t, prev, done, d, c);
    }

    /** `f_loop(false)`: the counting pass. */
    method CountAll(rows: seq<JValue>, fields: seq<string>)
      requires counts == COUNTED && Dictionary() == EMPTY
      modifies this
      ensures counts == CountCells(Flat(TableTexts(rows, fields))) && Dictionary() == EMPTY
    {
      hide CountCells, Tokens, CountTokens, FieldText, Render;
      ghost var texts: seq<string> := [];
      CountCellsNone();
      var r := 0;
      while r < |rows|
        invariant 0 <= r <= |rows| && texts == Flat(TableTexts(rows[..r], fields))
        invariant counts == CountCells(texts) && Dictionary() == EMPTY
      {
        ghost var before := texts;
        var f := 0;
        while f < |fields|
          invariant 0 <= f <= |fields| && texts == before + RowTexts(rows[r], fields[..f])
          invariant counts == CountCells(texts) && Dictionary() == EMPTY
        {
          ProcessText(false, FieldText(rows[r], fields[f]));
          CountCellsSnoc(texts, FieldText(rows[r], fields[f]));
          RowTextsSnoc(rows[r], fields, f);
          texts := texts + [FieldText(rows[r], fields[f])];
          f := f + 1;
        }
        assert fields[..f] == fields;
        TableTextsSnoc(rows, fields, r);
        r := r + 1;
      }
      assert rows[..r] == rows;
    }

    /** `f_loop(true)`: the writing pass appends every cell behind its length. */
    method WriteAll(rows: seq<JValue>, fields: seq<string>, start: string) returns (out: string, ghost cells: seq<string>)
      requires Dictionary() == EMPTY
      modifies this
      ensures Table(cells, Dictionary()) == Cells(Flat(TableTexts(rows, fields)), old(counts), dindex)
      ensures out == start + Records(cells, SIZE_BYTES)
    {
      hide Cells, Tokens, FieldText, Render, Records, Num;
      ghost var texts: seq<string>, c := [], counts;
      out, cells := start, [];
      CellsNone(c, dindex);
      var r := 0;
      while r < |rows|
        invariant 0 <= r <= |rows| && texts == Flat(TableTexts(rows[..r], fields)) && counts == c
        invariant Table(cells, Dictionary()) == Cells(texts, c, dindex) && out == start + Records(cells, SIZE_BYTES)
      {
        ghost var before := texts;
        var f := 0;
        while f < |fields|
          invariant 0 <= f <= |fields| && texts == before + RowTexts(rows[r], fields[..f]) && counts == c
          invariant Table(cells, Dictionary()) == Cells(texts, c, dindex) && out == start + Records(cells, SIZE_BYTES)
        {
          ProcessText(true, FieldText(rows[r], fields[f]));
          CellsSnoc(texts, FieldText(rows[r], fields[f]), c, dindex);
          RowTextsSnoc(rows[r], fields, f);
          texts := texts + [FieldText(rows[r], fields[f])];
          out := AppendRecord(out, newText, SIZE_BYTES, start, cells);
          cells := cells + [newText];
          f := f + 1;
        }
        assert fields[..f] == fields;
        TableTextsSnoc(rows, fields, r);
        r := r + 1;
      }
      assert rows[..r] == rows;
    }
  }

  lemma CountCellsNone()
    ensures CountCells([]) == COUNTED
  {
  }

  lemma CountCellsSnoc(texts: seq<string>, t: string)
    ensures CountCells(texts + [t]) == CountTokens(Tokens(t), CountCells(texts))
  {
    assert (texts + [t])[..|texts|] == texts;
  }

  lemma CellsNone(c: Counts, dindex: bool)
    ensures Cells([], c, dindex) == Table([], EMPTY)
    ensures Records([], SIZE_BYTES) == ""
  {
  }

  lemma CellsSnoc(texts: seq<string>, t: string, c: Counts, dindex: bool)
    ensures var b := Cells(texts, c, dindex); var e := Render(Tokens(t), b.dict, c, dindex);
            Cells(texts + [t], c, dindex) == Table(b.cells + [e.text], e.dict)
  {
    assert (texts + [t])[..|texts|] == texts;
  }

  lemma RowTextsSnoc(v: JValue, fields: seq<string>, f: nat)
    requires f < |fields|
    ensures RowTexts(v, fields[..f + 1]) == RowTexts(v, fields[..f]) + [FieldText(v, fields[f])]
  {
  }

  lemma TableTextsSnoc(rows: seq<JValue>, fields: seq<string>, r: nat)
    requires r < |rows|
    ensures Flat(TableTexts(rows[..r + 1], fields)) == Flat(TableTexts(rows[..r], fields)) + RowTexts(rows[r], fields)
  {
    hide RowTexts;
    var t := TableTexts(rows[..r + 1], fields);
    assert t[..|t| - 1] == TableTexts(rows[..r], fields);
  }

  /** A length and a text behind what is there. */
  method AppendRecord(out: string, s: string, w: nat, ghost start: string, ghost done: seq<string>) returns (next: string)
    requires out == start + Records(done, w)
    ensures next == start + Records(done + [s], w)
  {
    hide Records, Num;
    var size := NumericToChars(|s|, w);
    next := out + size + s;
    RecordsSnoc(done, s, w);
    assert next == start + (Records(done, w) + Record(s, w));
  }

  /** The field list behind what is there. */
  method AppendRecords(start: string, ss: seq<string>, w: nat) returns (out: string)
    ensures out == start + Records(ss, w)
  {
    hide Num;
    out := start;
    assert ss[..0] == [];
    var i := 0;
    while i < |ss|
      invariant 0 <= i <= |ss| && out == start + Records(ss[..i], w)
    {
      out := AppendRecord(out, ss[i], w, start, ss[..i]);
      assert ss[..i + 1] == ss[..i] + [ss[i]];
      i := i + 1;
    }
    assert ss[..i] == ss;
  }

  /** `max_sz_index`. */
  method FindLongest(words: seq<string>) returns (n: nat)
    ensures n == Longest(words)
  {
    n := 0;
    var i := 0;
    while i < |words|
      invariant 0 <= i <= |words| && n == Longest(words[..i])
    {
      assert words[..i + 1][..i] == words[..i];
      if |words[i]| > n {
        n := |words[i]|;
      }
      i := i + 1;
    }
    assert words[..i] == words;
  }

  /** The first item that is neither object nor null. */
  method FindBad(rows: seq<JValue>) returns (n: nat)
    ensures n == GoodRows(rows)
  {
    n := 0;
    assert rows[0..] == rows;
    while n < |rows| && (rows[n].JObject? || rows[n].JNull?)
      invariant n <= |rows| && GoodRows(rows) == n + GoodRows(rows[n..])
    {
      assert rows[n..][1..] == rows[n + 1..];
      n := n + 1;
    }
  }

  /**
   `compress`: an array of objects or nulls gives a table; any other item ends it by an exception, which leaves
   what was written before; a value that is no array gives the field list alone.
   */
  method Compress(j: JValue, fields: seq<string>, dindex: bool) returns (out: string)
    ensures !j.JArray? ==> out == Preamble(fields)
    ensures j.JArray? && (fields == [] || GoodRows(j.items) == |j.items|) ==> out == Compressed(j.items, fields, dindex)
    ensures j.JArray? && fields != [] && GoodRows(j.items) < |j.items| ==>
      out == CutShort(j.items[..GoodRows(j.items)], fields, dindex)
  {
    hide Num, Records, Cells, CountCells, TableTexts, Flat, Longest, Preamble, GoodRows, Compressed;
    out := WritePreamble(fields);
    if !j.JArray? {
      return;
    }
    var good := FindBad(j.items);
    if fields != [] && good < |j.items| {
      out := Interrupted(j.items[..good], fields, dindex, out);
    } else {
      out := WriteTable(j.items, fields, dindex, out);
    }
  }

  /** The passes up to an item that throws. */
  method Interrupted(rows: seq<JValue>, fields: seq<string>, dindex: bool, start: string) returns (out: string)
    requires start == Preamble(fields)
    ensures out == CutShort(rows, fields, dindex)
  {
    hide Num, Records, Cells, CountCells, TableTexts, Flat, Preamble;
    out := start;
    var w := new Writer(dindex);
    if dindex {
      w.CountAll(rows, fields);
    } else {
      ghost var cells;
      out, cells := w.WriteAll(rows, fields, out);
    }
  }

  /** Both passes, the header and the dictionary. */
  method WriteTable(rows: seq<JValue>, fields: seq<string>, dindex: bool, start: string) returns (out: string)
    requires start == Preamble(fields)
    ensures out == Compressed(rows, fields, dindex)
  {
    hide Num, Records, Cells, CountCells, TableTexts, Flat, Longest, Preamble;
    out := start;
    var w := new Writer(dindex);
    if dindex {
      w.CountAll(rows, fields);
    }
    ghost var cells;
    out, cells := w.WriteAll(rows, fields, out);
    var longest := FindLongest(w.words);
    var size := IndexWidth(longest);
    var indexBytes := NumericToChars(INDEX_BYTES, 1);
    out := indexBytes + out;
    var width := NumericToChars(size, 1);
    out := width + out;
    var total := NumericToChars(|out| + 4, 4);
    out := total + out;
    assert out == total + width + indexBytes + (Preamble(fields) + Records(cells, SIZE_BYTES));
    out := AppendRecords(out, w.words, size);
  }

  method WritePreamble(fields: seq<string>) returns (out: string)
    ensures out == Preamble(fields)
  {
    hide Num, Records;
    out := " #@";
    var rowSize := NumericToChars(SIZE_BYTES, 1);
    out := out + rowSize;
    var count := NumericToChars(|fields|, SIZE_BYTES);
    out := out + count;
    out := AppendRecords(out, fields, SIZE_BYTES);
  }

  // ---------------------------------------------------------------- reading

  /** `fetch`: nothing is taken when too little is left. */
  method Fetch(data: string, cursor: nat, bytes: nat) returns (ret: string, next: nat)
    requires cursor <= |data|
    ensures cursor + bytes <= |data| ==> ret == data[cursor..cursor + bytes] && next == cursor + bytes
    ensures cursor + bytes > |data| ==> ret == "" && next == cursor
  {
    ret, next := "", cursor;
    if |data| >= cursor + bytes {
      ret := data[cursor..cursor + bytes];
      next := cursor + bytes;
    }
  }

  /** The next bytes, when they are known to be there. */
  method FetchText(data: string, cursor: nat, bytes: nat, ghost s: string, ghost rest: string)
    returns (ret: string, next: nat)
    requires cursor <= |data| && data[cursor..] == s + rest && bytes == |s|
    ensures ret == s && next == cursor + bytes <= |data| && data[next..] == rest
  {
    ret, next := Fetch(data, cursor, bytes);
    assert ret == data[cursor..][..bytes];
    assert data[next..] == data[cursor..][bytes..];
  }

  method FetchNumber(data: string, cursor: nat, w: nat, ghost n: nat, ghost rest: string)
    returns (value: nat, next: nat)
    requires cursor <= |data| && data[cursor..] == Num(n, w) + rest && n < Pow256(w)
    ensures value == n && next == cursor + w <= |data| && data[next..] == rest
  {
    hide Num, Denum, Pow256;
    var t;
    t, next := FetchText(data, cursor, w, Num(n, w), rest);
    value := CharsToNumeric(t);
    NumRoundTrip(n, w);
  }

  /** A length and as many characters. */
  method FetchRecord(data: string, cursor: nat, w: nat, ghost s: string, ghost rest: string)
    returns (ret: string, next: nat)
    requires cursor <= |data| && data[cursor..] == Record(s, w) + rest && |s| < Pow256(w)
    ensures ret == s && next == cursor + w + |s| <= |data| && data[next..] == rest
  {
    hide Num, Pow256;
    assert Record(s, w) + rest == Num(|s|, w) + (s + rest);
    var n;
    n, next := FetchNumber(data, cursor, w, |s|, s + rest);
    ret, next := FetchText(data, next, n, s, rest);
  }

  lemma RecordsStep(ss: seq<string>, i: nat, w: nat, rest: string)
    requires i < |ss|
    ensures Records(ss[i..], w) + rest == Record(ss[i], w) + (Records(ss[i + 1..], w) + rest)
  {
    hide Record;
    assert ss[i..][1..] == ss[i + 1..];
  }

  /** The loop that reads the field names. */
  method FetchFields(data: string, cursor: nat, n: nat, ghost fields: seq<string>, ghost rest: string)
    returns (ret: seq<string>, next: nat)
    requires cursor <= |data| && data[cursor..] == Records(fields, SIZE_BYTES) + rest
    requires n == |fields| && AllBelow(fields, SIZE_LIMIT)
    ensures ret == fields && next <= |data| && data[next..] == rest
  {
    hide Records, Record;
    SizePower();
    ret, next := [], cursor;
    assert fields[0..] == fields;
    var i := 0;
    while i < n
      invariant 0 <= i <= n && ret == fields[..i]
      invariant next <= |data| && data[next..] == Records(fields[i..], SIZE_BYTES) + rest
    {
      RecordsStep(fields, i, SIZE_BYTES, rest);
      var f;
      f, next := FetchRecord(data, next, SIZE_BYTES, fields[i], Records(fields[i + 1..], SIZE_BYTES) + rest);
      ret := ret + [f];
      i := i + 1;
    }
    NoRecords(fields[i..], SIZE_BYTES);
    assert "" + rest == rest;
  }

  lemma SizePower()
    ensures Pow256(SIZE_BYTES) == SIZE_LIMIT && Pow256(1) == 256 && Pow256(4) == 0x1_0000_0000
  {
    assert Pow256(4) == 256 * Pow256(3) && Pow256(3) == 256 * Pow256(2) && Pow256(2) == 256 * Pow256(1);
  }

  lemma NoRecords(ss: seq<string>, w: nat)
    ensures ss == [] ==> Records(ss, w) == ""
    ensures ss != [] && w > 0 ==> Records(ss, w) != ""
  {
  }

  /** The loop that reads the dictionary to the end of the data. */
  method FetchWords(data: string, cursor: nat, w: nat, ghost words: seq<string>) returns (ret: seq<string>)
    requires cursor <= |data| && data[cursor..] == Records(words, w) && w > 0 && AllBelow(words, Pow256(w))
    ensures ret == words
  {
    hide Records, Record, Pow256;
    ret := [];
    var next := cursor;
    ghost var i := 0;
    assert words[0..] == words;
    while next < |data|
      invariant 0 <= i <= |words| && ret == words[..i]
      invariant next <= |data| && data[next..] == Records(words[i..], w)
      decreases |data| - next
    {
      NoRecords(words[i..], w);
      RecordsStep(words, i, w, "");
      assert Records(words[i..], w) + "" == Records(words[i..], w);
      assert Records(words[i + 1..], w) + "" == Records(words[i + 1..], w);
      var s;
      s, next := FetchRecord(data, next, w, words[i], Records(words[i + 1..], w) + "");
      ret := ret + [s];
      i := i + 1;
    }
    NoRecords(words[i..], w);
  }

  /** `f_index`. */
  method LookUp(words: seq<string>, i: nat) returns (s: string)
    ensures s == WordAt(words, i)
  {
    s := if i < MAX_WORDS && i < |words| then words[i] else "";
  }

  /** One character of a cell, or a marker with its number. */
  method DecodeNext(s: string, k: nat, words: seq<string>, marks: string, indexBytes: nat) returns (part: string, next: nat)
    requires k < |s| && marks == " #@" && indexBytes == INDEX_BYTES
    ensures k < next <= |s| && DecodeCell(s[k..], words) == part + DecodeCell(s[next..], words)
  {
    hide DecodeCell, Denum, WordAt;
    next := k + 1;
    if s[k] == marks[1] || s[k] == marks[2] {
      var b;
      b, next := Fetch(s, next, indexBytes);
      var n := CharsToNumeric(b);
      var word := LookUp(words, n);
      part := (if s[k] == marks[1] then [marks[0]] else "") + word;
      DecodeMarker(s, k, b, words);
    } else {
      part := [s[k]];
      DecodePlain(s, k, words);
    }
  }

  /** The loop over the characters of a cell. */
  method DecodeText(s: string, words: seq<string>, marks: string, indexBytes: nat) returns (line: string)
    requires marks == " #@" && indexBytes == INDEX_BYTES
    ensures line == DecodeCell(s, words)
  {
    hide DecodeCell;
    line := "";
    var k := 0;
    assert s[0..] == s;
    while k < |s|
      invariant 0 <= k <= |s| && DecodeCell(s, words) == line + DecodeCell(s[k..], words)
    {
      var part;
      part, k := DecodeNext(s, k, words, marks, indexBytes);
      assert line + (part + DecodeCell(s[k..], words)) == (line + part) + DecodeCell(s[k..], words);
      line := line + part;
    }
    DecodeNone(words);
    assert s[k..] == [];
  }

  lemma DecodeNone(words: seq<string>)
    ensures DecodeCell([], words) == []
  {
  }

  lemma DecodePlain(s: string, k: nat, words: seq<string>)
    requires k < |s| && !Marker(s[k])
    ensures DecodeCell(s[k..], words) == [s[k]] + DecodeCell(s[k + 1..], words)
  {
    assert s[k..][1..] == s[k + 1..];
  }

  lemma DecodeMarker(s: string, k: nat, b: string, words: seq<string>)
    requires k < |s| && Marker(s[k])
    requires b == if k + 1 + INDEX_BYTES <= |s| then s[k + 1..k + 1 + INDEX_BYTES] else ""
    ensures DecodeCell(s[k..], words)
         == (if s[k] == '#' then " " else "") + WordAt(words, Denum(b)) + DecodeCell(s[k + 1 + |b|..], words)
  {
    hide WordAt, Denum;
    var t := s[k..];
    assert t[0] == s[k] && t[1..] == s[k + 1..];
    assert IndexPart(s[k + 1..]) == b;
    assert t[1 + |b|..] == s[k + 1 + |b|..];
  }

  // ------------------------------------------------------------------- rows

  /** One row: its cells are read, decoded and stored under the field names. */
  method FetchRow(data: string, cursor: nat, fields: seq<string>, words: seq<string>,
                  marks: string, indexBytes: nat, rowSize: nat,
                  ghost cells: seq<string>, ghost rest: string)
    returns (row: seq<Member>, next: nat)
    requires cursor <= |data| && data[cursor..] == Records(cells, SIZE_BYTES) + rest
    requires |fields| == |cells| && AllBelow(cells, SIZE_LIMIT)
    requires marks == " #@" && indexBytes == INDEX_BYTES && rowSize == SIZE_BYTES
    ensures row == RowMembers(fields, DecodeCells(cells, words)) && next <= |data| && data[next..] == rest
    ensures next == cursor + |Records(cells, SIZE_BYTES)|
  {
    hide Records, Record, DecodeCell, JsonReader.Insert;
    SizePower();
    row, next := [], cursor;
    assert cells[0..] == cells;
    var i := 0;
    while i < |fields|
      invariant 0 <= i <= |fields| && row == RowMembers(fields[..i], DecodeCells(cells[..i], words))
      invariant next <= |data| && data[next..] == Records(cells[i..], SIZE_BYTES) + rest
    {
      RecordsStep(cells, i, SIZE_BYTES, rest);
      var f;
      f, next := FetchRecord(data, next, rowSize, cells[i], Records(cells[i + 1..], SIZE_BYTES) + rest);
      var line := DecodeText(f, words, marks, indexBytes);
      row := JsonReader.Insert(row, fields[i], JString(line));
      RowMembersSnoc(fields, cells, words, i);
      i := i + 1;
    }
    assert fields[..i] == fields && cells[..i] == cells;
    NoRecords(cells[i..], SIZE_BYTES);
    assert "" + rest == rest;
  }

  lemma RowMembersSnoc(fields: seq<string>, cells: seq<string>, words: seq<string>, i: nat)
    requires i < |fields| == |cells|
    ensures RowMembers(fields[..i + 1], DecodeCells(cells[..i + 1], words))
         == JsonReader.Insert(RowMembers(fields[..i], DecodeCells(cells[..i], words)), fields[i],
                              JString(DecodeCell(cells[i], words)))
  {
    hide DecodeCell, JsonReader.Insert;
    var ts := DecodeCells(cells[..i + 1], words);
    assert fields[..i + 1][..i] == fields[..i] && ts[..i] == DecodeCells(cells[..i], words);
  }

  /** The loop over rows up to the dictionary. */
  method FetchRows(data: string, cursor: nat, size: nat, fields: seq<string>, words: seq<string>,
                   marks: string, indexBytes: nat, rowSize: nat,
                   ghost cells: seq<string>, ghost rest: string)
    returns (rows: seq<JValue>)
    requires cursor <= |data| && data[cursor..] == Records(cells, SIZE_BYTES) + rest && size == |data| - |rest|
    requires Whole(|cells|, |fields|) && AllBelow(cells, SIZE_LIMIT)
    requires marks == " #@" && indexBytes == INDEX_BYTES && rowSize == SIZE_BYTES
    ensures rows == RowObjects(fields, Grouped(DecodeCells(cells, words), |fields|))
  {
    hide Records, Record, DecodeCell, RowMembers;
    rows := [];
    var next: nat := cursor;
    ghost var left := cells;
    while next < size
      invariant next <= |data| && data[next..] == Records(left, SIZE_BYTES) + rest
      invariant Whole(|left|, |fields|) && AllBelow(left, SIZE_LIMIT)
      invariant RowObjects(fields, Grouped(DecodeCells(cells, words), |fields|))
             == rows + RowObjects(fields, Grouped(DecodeCells(left, words), |fields|))
      decreases |left|
    {
      NoRecords(left, SIZE_BYTES);
      assert |data[next..]| > |rest|;
      ghost var w := |fields|;
      assert left == left[..w] + left[w..];
      RecordsConcat(left[..w], left[w..], SIZE_BYTES);
      GroupFirst(fields, left, words);
      var row;
      row, next := FetchRow(data, next, fields, words, marks, indexBytes, rowSize, left[..w], Records(left[w..], SIZE_BYTES) + rest);
      rows := rows + [JObject(row)];
      left := left[w..];
    }
    NoRecords(left, SIZE_BYTES);
  }

  lemma GroupFirst(fields: seq<string>, left: seq<string>, words: seq<string>)
    requires |left| >= |fields| > 0
    ensures RowObjects(fields, Grouped(DecodeCells(left, words), |fields|))
         == [JObject(RowMembers(fields, DecodeCells(left[..|fields|], words)))]
            + RowObjects(fields, Grouped(DecodeCells(left[|fields|..], words), |fields|))
  {
    hide RowObjects, Grouped, DecodeCells;
    var w := |fields|;
    DecodeCellsSplit(left, w, words);
    GroupedStep(DecodeCells(left, words), w);
    RowObjectsCons(fields, DecodeCells(left[..w], words), Grouped(DecodeCells(left[w..], words), w));
  }

  lemma DecodeCellsSplit(cells: seq<string>, w: nat, words: seq<string>)
    requires w <= |cells|
    ensures |DecodeCells(cells, words)| == |cells| && |DecodeCells(cells[..w], words)| == w
    ensures DecodeCells(cells, words)[..w] == DecodeCells(cells[..w], words)
    ensures DecodeCells(cells, words)[w..] == DecodeCells(cells[w..], words)
  {
    hide DecodeCell;
  }

  lemma GroupedStep(ts: seq<string>, w: nat)
    requires 0 < w <= |ts|
    ensures Grouped(ts, w) == [ts[..w]] + Grouped(ts[w..], w)
  {
  }

  lemma RowObjectsCons(fields: seq<string>, row: seq<string>, rows: seq<seq<string>>)
    requires |row| == |fields| && Wide(rows, |fields|)
    ensures RowObjects(fields, [row] + rows) == [JObject(RowMembers(fields, row))] + RowObjects(fields, rows)
  {
    hide RowMembers;
  }

  /** The header and the three record lists, as the cursor meets them. */
  lemma Parts(fields: seq<string>, cells: seq<string>, words: seq<string>)
    ensures var w := IndexWidth(Longest(words));
      var data := Layout(fields, cells, words);
      && data == Num(DataSize(fields, cells), 4) + (Num(w, 1) + (Num(INDEX_BYTES, 1)
                 + (" #@" + (Num(SIZE_BYTES, 1) + (Num(|fields|, SIZE_BYTES) + (Records(fields, SIZE_BYTES)
                 + (Records(cells, SIZE_BYTES) + Records(words, w))))))))
      && |data| == DataSize(fields, cells) + |Records(words, w)|
      && data[DataSize(fields, cells)..] == Records(words, w)
      && |data| >= 12
  {
    hide Num, Records, IndexWidth, Longest;
    var w := IndexWidth(Longest(words));
    var n, front := DataSize(fields, cells), Preamble(fields) + Records(cells, SIZE_BYTES);
    var head := Num(n, 4) + Num(w, 1) + Num(INDEX_BYTES, 1) + front;
    assert Layout(fields, cells, words) == head + Records(words, w);
    assert |head| == n;
    var tail := Records(cells, SIZE_BYTES) + Records(words, w);
    assert front + Records(words, w) == Preamble(fields) + tail;
    assert Preamble(fields) + tail
        == " #@" + (Num(SIZE_BYTES, 1) + (Num(|fields|, SIZE_BYTES) + (Records(fields, SIZE_BYTES) + tail)));
    assert head + Records(words, w) == Num(n, 4) + (Num(w, 1) + (Num(INDEX_BYTES, 1) + (front + Records(words, w))));
  }

  /** `decompress` of any well-formed table gives its rows, decoded with its dictionary. */
  method Decompress(data: string, ghost fields: seq<string>, ghost cells: seq<string>, ghost words: seq<string>)
    returns (out: JValue)
    requires data == Layout(fields, cells, words) && FitsFormat(fields, cells, words) && Whole(|cells|, |fields|)
    ensures out == Appended(RowObjects(fields, Grouped(DecodeCells(cells, words), |fields|)))
  {
    hide Num, Records, Layout, DataSize, Longest, RowObjects, Grouped, DecodeCells, Pow256;
    Parts(fields, cells, words);
    WidthHolds(words);
    SizePower();
    if |data| <= 12 {
      NoRows(fields, cells, words);
      return JNull;
    }
    ghost var r6 := Records(cells, SIZE_BYTES) + Records(words, IndexWidth(Longest(words)));
    ghost var r5 := Records(fields, SIZE_BYTES) + r6;
    ghost var r4 := Num(|fields|, SIZE_BYTES) + r5;
    ghost var r3 := Num(SIZE_BYTES, 1) + r4;
    ghost var r2 := " #@" + r3;
    ghost var r1 := Num(INDEX_BYTES, 1) + r2;
    ghost var r0 := Num(IndexWidth(Longest(words)), 1) + r1;
    var size, cursor := FetchNumber(data, 0, 4, DataSize(fields, cells), r0);
    var width; width, cursor := FetchNumber(data, cursor, 1, IndexWidth(Longest(words)), r1);
    var indexBytes; indexBytes, cursor := FetchNumber(data, cursor, 1, INDEX_BYTES, r2);
    var marks; marks, cursor := FetchText(data, cursor, 3, " #@", r3);
    var rowSize; rowSize, cursor := FetchNumber(data, cursor, 1, SIZE_BYTES, r4);
    var count; count, cursor := FetchNumber(data, cursor, SIZE_BYTES, |fields|, r5);
    var names; names, cursor := FetchFields(data, cursor, count, fields, r6);
    out := JNull;
    if size <= |data| {
      var dictionary := FetchWords(data, size, width, words);
      var rows := FetchRows(data, cursor, size, names, dictionary, marks, indexBytes, rowSize,
                            cells, Records(words, IndexWidth(Longest(words))));
      if rows != [] {
        out := JArray(rows);
      }
    }
  }

  /** Twelve bytes are a table without fields. */
  lemma NoRows(fields: seq<string>, cells: seq<string>, words: seq<string>)
    requires |Layout(fields, cells, words)| <= 12 && Whole(|cells|, |fields|)
    ensures RowObjects(fields, Grouped(DecodeCells(cells, words), |fields|)) == []
  {
  }

  /**
   `decompress(compress(j))`: every row comes back with every field of the list, holding the text
   the original had there, or "" where it had none.
   */
  method RoundTrip(rows: seq<JValue>, fields: seq<string>, dindex: bool) returns (out: JValue)
    requires forall i :: 0 <= i < |rows| ==> rows[i].JObject? || rows[i].JNull?
    requires var texts := Flat(TableTexts(rows, fields));
             var t := Cells(texts, Counted(texts, dindex), dindex);
             FitsFormat(fields, t.cells, t.dict.words)
    ensures fields != [] && rows != [] ==> out.JArray? && |out.items| == |rows|
    ensures fields != [] && rows != [] ==> forall r :: 0 <= r < |rows| ==> Restored(rows[r], fields, out.items[r])
    ensures fields == [] || rows == [] ==> out == JNull
  {
    hide Num, Records, Layout, Cells, FitsFormat, Counted, Flat, RowTexts, RowMembers, Restored;
    ghost var texts := Flat(TableTexts(rows, fields));
    ghost var t := Cells(texts, Counted(texts, dindex), dindex);
    GroupedFlat(TableTexts(rows, fields), |fields|);
    FitsWords(fields, t.cells, t.dict.words);
    CellsRead(texts, Counted(texts, dindex), dindex, t.dict.words);
    AllGood(rows);
    var data := Compress(JArray(rows), fields, dindex);
    out := Decompress(data, fields, t.cells, t.dict.words);
    forall r | 0 <= r < |rows| ensures Restored(rows[r], fields, JObject(RowMembers(fields, RowTexts(rows[r], fields)))) {
      RowIsRestored(rows[r], fields);
    }
  }

  lemma {:induction false} AllGood(rows: seq<JValue>)
    requires forall i :: 0 <= i < |rows| ==> rows[i].JObject? || rows[i].JNull?
    ensures GoodRows(rows) == |rows|
  {
    if rows != [] {
      AllGood(rows[1..]);
    }
  }

  lemma FitsWords(fields: seq<string>, cells: seq<string>, words: seq<string>)
    requires FitsFormat(fields, cells, words)
    ensures |words| <= MAX_WORDS
  {
  }
}
