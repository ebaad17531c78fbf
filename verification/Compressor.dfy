/**
 The dictionary compressor of libs/json/json_compressor.h, on values: how a text is cut
 into words, how words are written or replaced by dictionary numbers, how a cell is
 read back, and the binary layout around the cells.
 */
module Compressor {
  import opened Bitbase

  // ------------------------------------------------------------------ words

  /** One emission: a word, perhaps with the blank before it, or a blank alone. */
  datatype Token = Word(word: string, blank: bool) | Blank

  const BASIC: string := " !$%^&*()-='\"/?.,@#"
  const INDEX_BYTES: nat := 4

  predicate Basic(c: char) {
    c in BASIC
  }

  /** `find_first_of(basic, from)`: the end of the text stands for `npos`. */
  function NextBasic(t: string, from: nat): (k: nat)
    requires from <= |t|
    ensures from <= k <= |t| && (k < |t| ==> Basic(t[k]))
    ensures forall i :: from <= i < k ==> !Basic(t[i])
    decreases |t| - from
  {
    if from == |t| || Basic(t[from]) then from else NextBasic(t, from + 1)
  }

  /** Whether the character before position k is a blank. */
  predicate AfterBlank(t: string, k: int)
    requires k <= |t|
  {
    k > 0 && t[k - 1] == ' '
  }

  /** The word between the separators at prev and k, if any. */
  function Between(t: string, prev: int, k: int): seq<Token>
    requires -1 <= prev < k <= |t|
  {
    if k > prev + 1 then [Word(t[prev + 1..k], AfterBlank(t, prev + 1))] else []
  }

  /** What the separator at k adds, the one before it being at prev. */
  function Separator(t: string, prev: int, k: int): seq<Token>
    requires -1 <= prev < k < |t|
  {
    (if t[k] != ' ' then [Word([t[k]], AfterBlank(t, k))]
     else if prev >= 0 && t[prev] == ' ' && k == prev + 1 then [Blank]
     else [])
    + (if t[k] == ' ' && k == |t| - 1 then [Blank] else [])
  }

  /** The emissions for the text after the separator at prev. */
  function TokensFrom(t: string, prev: int): seq<Token>
    requires -1 <= prev < |t|
    decreases |t| - prev
  {
    var k := NextBasic(t, prev + 1);
    Between(t, prev, k) + if k == |t| then [] else Separator(t, prev, k) + TokensFrom(t, k)
  }

  function Tokens(t: string): seq<Token> {
    TokensFrom(t, -1)
  }

  /** The text an emission stands for. */
  function TokenText(k: Token): string {
    match k
    case Word(w, b) => if b then " " + w else w
    case Blank => " "
  }

  function Meaning(ks: seq<Token>): string {
    if ks == [] then [] else TokenText(ks[0]) + Meaning(ks[1..])
  }

  lemma {:induction false} MeaningConcat(a: seq<Token>, b: seq<Token>)
    ensures Meaning(a + b) == Meaning(a) + Meaning(b)
  {
    if a == [] {
      assert a + b == b;
    } else {
      assert (a + b)[1..] == a[1..] + b;
      MeaningConcat(a[1..], b);
    }
  }

  lemma MeaningOne(k: Token)
    ensures Meaning([k]) == TokenText(k)
  {
    assert [k][1..] == [];
    assert TokenText(k) + [] == TokenText(k);
  }

  /** The blank at prev that no emission has covered yet. */
  function Pending(t: string, prev: int): string
    requires -1 <= prev < |t|
  {
    if 0 <= prev < |t| - 1 && t[prev] == ' ' then " " else ""
  }

  lemma BetweenMeans(t: string, prev: int, k: int)
    requires -1 <= prev < k <= |t|
    ensures k > prev + 1 ==> Meaning(Between(t, prev, k)) == Pending(t, prev) + t[prev + 1..k]
    ensures k == prev + 1 ==> Meaning(Between(t, prev, k)) == []
  {
    if k > prev + 1 {
      MeaningOne(Word(t[prev + 1..k], AfterBlank(t, prev + 1)));
    }
  }

  lemma SeparatorMeans(t: string, prev: int, k: int)
    requires -1 <= prev < k < |t|
    requires k > prev + 1 ==> t[k - 1] != ' '
    ensures Meaning(Separator(t, prev, k)) + Pending(t, k)
         == (if k > prev + 1 then "" else Pending(t, prev)) + [t[k]]
  {
    MeaningOne(Blank);
    MeaningOne(Word([t[k]], AfterBlank(t, k)));
    if t[k] == ' ' && k == |t| - 1 && prev >= 0 && t[prev] == ' ' && k == prev + 1 {
      MeaningConcat([Blank], [Blank]);
    }
    assert [Blank] + [] == [Blank] == [] + [Blank];
    assert [Word([t[k]], AfterBlank(t, k))] + [] == [Word([t[k]], AfterBlank(t, k))];
  }

  lemma TokensFromCases(t: string, prev: int, k: nat)
    requires -1 <= prev < |t| && k == NextBasic(t, prev + 1)
    ensures k == |t| ==> TokensFrom(t, prev) == Between(t, prev, k)
    ensures k < |t| ==> TokensFrom(t, prev) == Between(t, prev, k) + (Separator(t, prev, k) + TokensFrom(t, k))
  {
    hide Between, Separator;
    assert k == |t| ==> Between(t, prev, k) + [] == Between(t, prev, k);
  }

  /** Only separators can be blanks. */
  lemma NotBlank(t: string, prev: int, k: nat)
    requires -1 <= prev < |t| && k == NextBasic(t, prev + 1)
    ensures k > prev + 1 ==> t[k - 1] != ' '
  {
    assert k > prev + 1 ==> !Basic(t[k - 1]);
  }

  lemma LastPart(t: string, prev: int)
    requires -1 <= prev < |t|
    ensures prev == |t| - 1 ==> Pending(t, prev) + t[prev + 1..] == []
    ensures t[prev + 1..|t|] == t[prev + 1..]
  {
  }

  lemma CutAt(t: string, i: nat, k: nat)
    requires i <= k < |t|
    ensures t[i..k] + ([t[k]] + t[k + 1..]) == t[i..]
  {
  }

  lemma Reassemble(p: string, w: string, c: string, rest: string, mb: string, ms: string, q: string)
    requires mb == if w != [] then p + w else []
    requires ms + q == (if w != [] then "" else p) + c
    ensures mb + (ms + (q + rest)) == p + (w + (c + rest))
  {
    assert ms + (q + rest) == (ms + q) + rest;
    if w != [] {
      assert "" + c == c;
      assert (p + w) + (c + rest) == p + (w + (c + rest));
    } else {
      assert (p + c) + rest == p + (c + rest);
      assert w + (c + rest) == c + rest;
    }
  }

  /** No character is lost, added or moved: the emissions spell the text, every blank once. */
  lemma {:induction false} TokensFromMean(t: string, prev: int)
    requires -1 <= prev < |t|
    ensures Meaning(TokensFrom(t, prev)) == Pending(t, prev) + t[prev + 1..]
    decreases |t| - prev
  {
    hide Pending, Between, Separator, Meaning, TokensFrom, Basic;
    var k := NextBasic(t, prev + 1);
    BetweenMeans(t, prev, k);
    TokensFromCases(t, prev, k);
    if k < |t| {
      NotBlank(t, prev, k);
      SeparatorMeans(t, prev, k);
      TokensFromMean(t, k);
      var b, s, r := Between(t, prev, k), Separator(t, prev, k), TokensFrom(t, k);
      MeaningConcat(s, r);
      MeaningConcat(b, s + r);
      Reassemble(Pending(t, prev), t[prev + 1..k], [t[k]], t[k + 1..], Meaning(b), Meaning(s), Pending(t, k));
      CutAt(t, prev + 1, k);
    } else {
      LastPart(t, prev);
    }
  }

  // ------------------------------------------------------------- dictionary

  /** `indexex` and `indexex_sort`: the number of each word, and the words by number. */
  datatype Dict = Dict(index: map<string, nat>, words: seq<string>)

  type Counts = map<string, nat>

  const EMPTY: Dict := Dict(map[], [])
  const COUNTED: Counts := map["#" := 2, "@" := 2]

  predicate DictOk(d: Dict) {
    && (forall w :: w in d.index ==> d.index[w] < |d.words| && d.words[d.index[w]] == w)
    && (forall i :: 0 <= i < |d.words| ==> d.words[i] in d.index && d.index[d.words[i]] == i)
  }

  predicate Marker(c: char) {
    c == '#' || c == '@'
  }

  /** The words `counting` is kept for. */
  predicate Long(w: string) {
    w != [] && (|w| > INDEX_BYTES || Marker(w[0]))
  }

  predicate Rare(w: string, counts: Counts) {
    w !in counts || counts[w] < 2
  }

  /** Whether a word is replaced by its number. */
  predicate Indexed(w: string, counts: Counts, dindex: bool)
    requires w != []
  {
    !((|w| <= INDEX_BYTES || (dindex && Rare(w, counts))) && !Marker(w[0]))
  }

  datatype Emitted = Emitted(text: string, dict: Dict)

  function Number(d: Dict, w: string): nat {
    if w in d.index then d.index[w] else |d.words|
  }

  function Learn(d: Dict, w: string): Dict {
    if w in d.index then d else Dict(d.index[w := |d.words|], d.words + [w])
  }

  /** `replace_by_index` in the writing pass. */
  function Emit(k: Token, d: Dict, counts: Counts, dindex: bool): Emitted {
    match k
    case Blank => Emitted(" ", d)
    case Word(w, b) =>
      if w == [] then Emitted("", d)
      else if Indexed(w, counts, dindex) then
        Emitted([if b then '#' else '@'] + Num(Number(d, w), INDEX_BYTES), Learn(d, w))
      else Emitted((if b then " " else "") + w, d)
  }

  function Render(ks: seq<Token>, d: Dict, counts: Counts, dindex: bool): Emitted {
    if ks == [] then Emitted("", d)
    else
      var e := Render(ks[..|ks| - 1], d, counts, dindex);
      var f := Emit(ks[|ks| - 1], e.dict, counts, dindex);
      Emitted(e.text + f.text, f.dict)
  }

  lemma EmitKeeps(k: Token, d: Dict, counts: Counts, dindex: bool)
    requires DictOk(d)
    ensures DictOk(Emit(k, d, counts, dindex).dict)
    ensures d.words <= Emit(k, d, counts, dindex).dict.words
  {
  }

  /** A new word's number is its place in the list; no word gets two numbers, no number two words. */
  lemma {:induction false} RenderKeeps(ks: seq<Token>, d: Dict, counts: Counts, dindex: bool)
    requires DictOk(d)
    ensures DictOk(Render(ks, d, counts, dindex).dict)
    ensures d.words <= Render(ks, d, counts, dindex).dict.words
  {
    hide DictOk, Emit;
    if ks != [] {
      var init := ks[..|ks| - 1];
      RenderKeeps(init, d, counts, dindex);
      EmitKeeps(ks[|ks| - 1], Render(init, d, counts, dindex).dict, counts, dindex);
    }
  }

  // ---------------------------------------------------------------- reading

  const MAX_WORDS: nat := 0x8000_0000

  /** `f_index`: the number arrives as a signed 32-bit value. */
  function WordAt(words: seq<string>, i: nat): string {
    if i < MAX_WORDS && i < |words| then words[i] else ""
  }

  /** The index bytes at the front: none are taken when too few are left. */
  function IndexPart(s: string): string {
    if |s| >= INDEX_BYTES then s[..INDEX_BYTES] else ""
  }

  /** The cell loop of `decompress`. */
  function DecodeCell(s: string, words: seq<string>): string
    decreases |s|
  {
    if s == [] then []
    else if Marker(s[0]) then
      var b := IndexPart(s[1..]);
      (if s[0] == '#' then " " else "") + WordAt(words, Denum(b)) + DecodeCell(s[1 + |b|..], words)
    else [s[0]] + DecodeCell(s[1..], words)
  }

  /** Words are single characters or free of separators. */
  predicate Clean(k: Token) {
    k.Word? ==> k.word != [] && (|k.word| == 1 || forall i :: 0 <= i < |k.word| ==> !Basic(k.word[i]))
  }

  predicate AllClean(ks: seq<Token>) {
    forall i :: 0 <= i < |ks| ==> Clean(ks[i])
  }

  lemma {:induction false} TokensClean(t: string, prev: int)
    requires -1 <= prev < |t|
    ensures AllClean(TokensFrom(t, prev))
    decreases |t| - prev
  {
    hide TokensFrom, Between, Separator, Clean;
    var k := NextBasic(t, prev + 1);
    TokensFromCases(t, prev, k);
    PartsClean(t, prev, k);
    if k < |t| {
      TokensClean(t, k);
      var b, s, r := Between(t, prev, k), Separator(t, prev, k), TokensFrom(t, k);
      assert AllClean(s + r);
      assert AllClean(b + (s + r));
    }
  }

  lemma PartsClean(t: string, prev: int, k: nat)
    requires -1 <= prev < |t| && k == NextBasic(t, prev + 1)
    ensures AllClean(Between(t, prev, k)) && (k < |t| ==> AllClean(Separator(t, prev, k)))
  {
  }

  /** Characters that are no markers are read as themselves. */
  lemma {:induction false} DecodeLiteral(lit: string, rest: string, words: seq<string>)
    requires forall i :: 0 <= i < |lit| ==> !Marker(lit[i])
    ensures DecodeCell(lit + rest, words) == lit + DecodeCell(rest, words)
  {
    if lit == [] {
      assert lit + rest == rest;
    } else {
      assert (lit + rest)[1..] == lit[1..] + rest;
      DecodeLiteral(lit[1..], rest, words);
    }
  }

  /** A marker and a number are read as the word with that number. */
  lemma DecodeIndexed(b: bool, n: nat, rest: string, words: seq<string>)
    requires n < |words| <= MAX_WORDS
    ensures DecodeCell(([if b then '#' else '@'] + Num(n, INDEX_BYTES)) + rest, words)
         == (if b then " " else "") + words[n] + DecodeCell(rest, words)
  {
    var m := [if b then '#' else '@'];
    var s := (m + Num(n, INDEX_BYTES)) + rest;
    assert s[1..] == Num(n, INDEX_BYTES) + rest;
    assert IndexPart(s[1..]) == Num(n, INDEX_BYTES);
    assert s[1 + INDEX_BYTES..] == rest;
    assert Pow256(4) == 0x1_0000_0000;
    NumRoundTrip(n, INDEX_BYTES);
  }

  lemma NumberNames(d: Dict, w: string, words: seq<string>)
    requires DictOk(d) && Learn(d, w).words <= words
    ensures Number(d, w) < |words| && words[Number(d, w)] == w
  {
  }

  lemma LiteralPlain(w: string, b: bool, counts: Counts, dindex: bool)
    requires Clean(Word(w, b)) && !Indexed(w, counts, dindex)
    ensures var lit := (if b then " " else "") + w; forall i :: 0 <= i < |lit| ==> !Marker(lit[i])
  {
    assert forall i :: 0 <= i < |w| && Marker(w[i]) ==> Basic(w[i]);
  }

  /** One emission is read back as its text, whatever follows. */
  lemma DecodeEmit(k: Token, d: Dict, counts: Counts, dindex: bool, rest: string, words: seq<string>)
    requires DictOk(d) && Clean(k)
    requires Emit(k, d, counts, dindex).dict.words <= words && |words| <= MAX_WORDS
    ensures DecodeCell(Emit(k, d, counts, dindex).text + rest, words) == TokenText(k) + DecodeCell(rest, words)
  {
    hide DecodeCell, Num, Indexed, DictOk, Number, Learn, Marker;
    match k {
      case Blank =>
        assert !Marker(' ') by { BlankPlain(); }
        DecodeLiteral(" ", rest, words);
      case Word(w, b) =>
        if Indexed(w, counts, dindex) {
          NumberNames(d, w, words);
          DecodeIndexed(b, Number(d, w), rest, words);
        } else {
          LiteralPlain(w, b, counts, dindex);
          DecodeLiteral((if b then " " else "") + w, rest, words);
        }
    }
  }

  lemma BlankPlain()
    ensures !Marker(' ')
  {
  }

  /** Whatever was put in the dictionary, and whatever is put there later, reading gives the text back. */
  lemma {:induction false} DecodeRender(ks: seq<Token>, d: Dict, counts: Counts, dindex: bool,
                                        rest: string, words: seq<string>)
    requires DictOk(d) && AllClean(ks)
    requires Render(ks, d, counts, dindex).dict.words <= words && |words| <= MAX_WORDS
    ensures DecodeCell(Render(ks, d, counts, dindex).text + rest, words) == Meaning(ks) + DecodeCell(rest, words)
    decreases |ks|
  {
    hide DecodeCell, Emit, Meaning;
    if ks == [] {
      assert "" + rest == rest;
      MeaningNone();
      assert [] + DecodeCell(rest, words) == DecodeCell(rest, words);
    } else {
      var init, k := ks[..|ks| - 1], ks[|ks| - 1];
      var e := Render(init, d, counts, dindex);
      var f := Emit(k, e.dict, counts, dindex);
      RenderKeeps(init, d, counts, dindex);
      EmitKeeps(k, e.dict, counts, dindex);
      DecodeRender(init, d, counts, dindex, f.text + rest, words);
      DecodeEmit(k, e.dict, counts, dindex, rest, words);
      assert (e.text + f.text) + rest == e.text + (f.text + rest);
      assert ks == init + [k];
      MeaningConcat(init, [k]);
      MeaningOne(k);
      assert Meaning(init) + (TokenText(k) + DecodeCell(rest, words)) == Meaning(ks) + DecodeCell(rest, words);
    }
  }

  lemma MeaningNone()
    ensures Meaning([]) == []
  {
  }

  /** A cell costs at most five bytes a character, so cells of 13107 characters always fit their length field. */
  lemma {:induction false} RenderSize(ks: seq<Token>, d: Dict, counts: Counts, dindex: bool)
    requires AllClean(ks)
    ensures |Render(ks, d, counts, dindex).text| <= 5 * |Meaning(ks)|
  {
    hide Meaning, Indexed;
    if ks != [] {
      var init, k := ks[..|ks| - 1], ks[|ks| - 1];
      RenderSize(init, d, counts, dindex);
      assert ks == init + [k];
      MeaningConcat(init, [k]);
      MeaningOne(k);
      assert Clean(k);
    }
  }

  // -------------------------------------------------------------- all cells

  /** The cells written so far, and the dictionary they share. */
  datatype Table = Table(cells: seq<string>, dict: Dict)

  function Cells(texts: seq<string>, counts: Counts, dindex: bool): Table {
    if texts == [] then Table([], EMPTY)
    else
      var t := Cells(texts[..|texts| - 1], counts, dindex);
      var e := Render(Tokens(texts[|texts| - 1]), t.dict, counts, dindex);
      Table(t.cells + [e.text], e.dict)
  }

  lemma {:induction false} CellsKeep(texts: seq<string>, counts: Counts, dindex: bool)
    ensures DictOk(Cells(texts, counts, dindex).dict)
  {
    if texts != [] {
      hide Render, Tokens;
      var init := texts[..|texts| - 1];
      CellsKeep(init, counts, dindex);
      RenderKeeps(Tokens(texts[|texts| - 1]), Cells(init, counts, dindex).dict, counts, dindex);
    }
  }

  function DecodeCells(cells: seq<string>, words: seq<string>): seq<string> {
    seq(|cells|, i requires 0 <= i < |cells| => DecodeCell(cells[i], words))
  }

  /** Every cell reads back as its text with the finished dictionary, whichever words were counted. */
  lemma {:induction false} CellsRead(texts: seq<string>, counts: Counts, dindex: bool, words: seq<string>)
    requires Cells(texts, counts, dindex).dict.words <= words && |words| <= MAX_WORDS
    ensures DecodeCells(Cells(texts, counts, dindex).cells, words) == texts
  {
    hide Render, Tokens, DecodeCell;
    if texts != [] {
      var init, t := texts[..|texts| - 1], texts[|texts| - 1];
      var c := Cells(init, counts, dindex);
      CellsKeep(init, counts, dindex);
      RenderKeeps(Tokens(t), c.dict, counts, dindex);
      CellsRead(init, counts, dindex, words);
      CellRead(t, c.dict, counts, dindex, words);
      assert texts == init + [t];
    }
  }

  lemma CellRead(t: string, d: Dict, counts: Counts, dindex: bool, words: seq<string>)
    requires DictOk(d) && Render(Tokens(t), d, counts, dindex).dict.words <= words && |words| <= MAX_WORDS
    ensures DecodeCell(Render(Tokens(t), d, counts, dindex).text, words) == t
  {
    hide Render, TokensFrom, Meaning, DictOk;
    TokensClean(t, -1);
    TokensFromMean(t, -1);
    var s := Render(Tokens(t), d, counts, dindex).text;
    DecodeRender(Tokens(t), d, counts, dindex, [], words);
    assert s + [] == s;
    assert Pending(t, -1) + t[0..] == t;
    assert t + [] == t;
  }

  // --------------------------------------------------------------- counting

  function Count(counts: Counts, w: string): nat {
    if w in counts then counts[w] else 0
  }

  /** `replace_by_index` in the counting pass. */
  function CountToken(k: Token, counts: Counts): Counts {
    if k.Word? && Long(k.word) then counts[k.word := Count(counts, k.word) + 1] else counts
  }

  function CountTokens(ks: seq<Token>, counts: Counts): Counts {
    if ks == [] then counts else CountToken(ks[|ks| - 1], CountTokens(ks[..|ks| - 1], counts))
  }

  function CountCells(texts: seq<string>): Counts {
    if texts == [] then COUNTED
    else CountTokens(Tokens(texts[|texts| - 1]), CountCells(texts[..|texts| - 1]))
  }

  /** The counts the writing pass goes by: the counting pass runs for `dindex` only. */
  function Counted(texts: seq<string>, dindex: bool): Counts {
    if dindex then CountCells(texts) else COUNTED
  }

  function Occurs(ks: seq<Token>, w: string): nat {
    if ks == [] then 0
    else Occurs(ks[..|ks| - 1], w) + if ks[|ks| - 1].Word? && ks[|ks| - 1].word == w then 1 else 0
  }

  /** How often a word occurs in the texts. */
  function OccursIn(texts: seq<string>, w: string): nat {
    if texts == [] then 0
    else OccursIn(texts[..|texts| - 1], w) + Occurs(Tokens(texts[|texts| - 1]), w)
  }

  lemma {:induction false} CountTokensCount(ks: seq<Token>, counts: Counts, w: string)
    requires Long(w)
    ensures Count(CountTokens(ks, counts), w) == Count(counts, w) + Occurs(ks, w)
  {
    if ks != [] {
      CountTokensCount(ks[..|ks| - 1], counts, w);
    }
  }

  lemma {:induction false} CountCellsCount(texts: seq<string>, w: string)
    requires Long(w)
    ensures Count(CountCells(texts), w) == Count(COUNTED, w) + OccursIn(texts, w)
  {
    hide CountTokens, Tokens, Occurs;
    if texts != [] {
      CountCellsCount(texts[..|texts| - 1], w);
      CountTokensCount(Tokens(texts[|texts| - 1]), CountCells(texts[..|texts| - 1]), w);
    }
  }

  lemma {:induction false} RenderLearns(ks: seq<Token>, d: Dict, counts: Counts, dindex: bool, w: string)
    requires w != []
    ensures w in Render(ks, d, counts, dindex).dict.index
       <==> w in d.index || (Occurs(ks, w) > 0 && Indexed(w, counts, dindex))
  {
    hide Indexed;
    if ks != [] {
      RenderLearns(ks[..|ks| - 1], d, counts, dindex, w);
    }
  }

  lemma {:induction false} CellsLearn(texts: seq<string>, counts: Counts, dindex: bool, w: string)
    requires w != []
    ensures w in Cells(texts, counts, dindex).dict.index
       <==> OccursIn(texts, w) > 0 && Indexed(w, counts, dindex)
  {
    hide Indexed, Render, Tokens, Occurs;
    if texts != [] {
      var init := texts[..|texts| - 1];
      CellsLearn(init, counts, dindex, w);
      RenderLearns(Tokens(texts[|texts| - 1]), Cells(init, counts, dindex).dict, counts, dindex, w);
    }
  }

  /** The dictionary of a table of texts. */
  function Dictionary(texts: seq<string>, dindex: bool): seq<string> {
    Cells(texts, Counted(texts, dindex), dindex).dict.words
  }

  /**
   The two passes keep exactly the words worth keeping: the markers that occur, and the
   occurring words longer than an index, which with `dindex` must occur at least twice.
   */
  lemma DictionaryIs(texts: seq<string>, dindex: bool, w: string)
    requires w != []
    ensures w in Dictionary(texts, dindex)
       <==> OccursIn(texts, w) > 0
            && (Marker(w[0]) || (|w| > INDEX_BYTES && (dindex ==> OccursIn(texts, w) >= 2)))
  {
    hide Cells, CountCells, OccursIn;
    var counts := Counted(texts, dindex);
    CellsLearn(texts, counts, dindex, w);
    CellsKeep(texts, counts, dindex);
    var d := Cells(texts, counts, dindex).dict;
    assert w in d.words <==> w in d.index;
    if Long(w) {
      CountCellsCount(texts, w);
    }
  }
}
