/**
 GOST 28147-89 in counter mode (libs/gost_28147_89/gost_89.cpp).  Words that are xored
 are bit vectors; words that are only counted are integers below 2^32.
 */
module Gost {
  import opened Arithmetic

  type Word = bv32
  type Count = n: int | 0 <= n < 0x1_0000_0000

  const C1: Count := 0x1010104
  const C2: Count := 0x1010101

  // ----------------------------------------------------------- substitution

  predicate IsTable(t: seq<seq<bv8>>) {
    |t| == 8 && forall i :: 0 <= i < 8 ==> |t[i]| == 16
  }

  type Table = t: seq<seq<bv8>> | IsTable(t) witness seq(8, i => seq(16, j => 0))

  predicate Nibbles(t: Table) {
    forall i, j :: 0 <= i < 8 && 0 <= j < 16 ==> t[i][j] < 16
  }

  function Rotate11(s: Word): Word {
    (s << 11) | (s >> 21)
  }

  /** The four bytes of a word, low first. */
  function Byte0(w: Word): bv8 { (w & 0xff) as bv8 }
  function Byte1(w: Word): bv8 { ((w >> 8) & 0xff) as bv8 }
  function Byte2(w: Word): bv8 { ((w >> 16) & 0xff) as bv8 }
  function Byte3(w: Word): bv8 { (w >> 24) as bv8 }

  /** Shifted to the place of byte i. */
  function Placed(s: Word, i: nat): Word
    requires i < 4
  {
    if i == 0 then s else if i == 1 then s << 8 else if i == 2 then s << 16 else s << 24
  }

  /** Two replaced nibbles side by side. */
  function Paired(x: bv8, y: bv8): Word {
    (x as Word) | ((y as Word) << 4)
  }

  /** The entry `setTable` computes for byte k of lane i. */
  function Expanded(t: Table, i: nat, k: nat): Word
    requires i < 4 && k < 256
  {
    Rotate11(Placed(Paired(t[2 * i][k % 16], t[2 * i + 1][k / 16]), i))
  }

  /** `f`: four lookups. */
  function F(t: Table, w: Word): Word {
    Mixed(Expanded(t, 0, Byte0(w) as int), Expanded(t, 1, Byte1(w) as int),
          Expanded(t, 2, Byte2(w) as int), Expanded(t, 3, Byte3(w) as int))
  }

  function Mixed(e0: Word, e1: Word, e2: Word, e3: Word): Word {
    e3 ^ e2 ^ e1 ^ e0
  }

  lemma SmallIndex(b: bv8)
    ensures b < 16 ==> b as int < 16
  {
  }

  /** A nibble's replacement in its row. */
  function Replaced(row: seq<bv8>, nibble: Word): bv8
    requires |row| == 16 && nibble < 16
  {
    SmallIndex(nibble as bv8);
    row[(nibble as bv8) as int]
  }

  /** Eight nibbles as a word, the first lowest. */
  function Joined(x0: bv8, x1: bv8, x2: bv8, x3: bv8, x4: bv8, x5: bv8, x6: bv8, x7: bv8): Word {
    (x0 as Word) | ((x1 as Word) << 4) | ((x2 as Word) << 8) | ((x3 as Word) << 12)
    | ((x4 as Word) << 16) | ((x5 as Word) << 20) | ((x6 as Word) << 24) | ((x7 as Word) << 28)
  }

  /** Section 5 of RFC 5830: each nibble goes through its own row. */
  function Substituted(t: Table, w: Word): Word {
    Joined(Replaced(t[0], w & 15), Replaced(t[1], (w >> 4) & 15),
           Replaced(t[2], (w >> 8) & 15), Replaced(t[3], (w >> 12) & 15),
           Replaced(t[4], (w >> 16) & 15), Replaced(t[5], (w >> 20) & 15),
           Replaced(t[6], (w >> 24) & 15), Replaced(t[7], (w >> 28) & 15))
  }

  lemma LowNibble(b: bv8)
    ensures (b & 0x0f) as int == b as int % 16
  {
  }

  lemma HighNibble(b: bv8)
    ensures (b >> 4) as int == b as int / 16
  {
  }

  lemma NibblesOfBytes(w: Word)
    ensures ((w & 15) as bv8) == Byte0(w) & 15 && (((w >> 4) & 15) as bv8) == Byte0(w) >> 4
    ensures (((w >> 8) & 15) as bv8) == Byte1(w) & 15 && (((w >> 12) & 15) as bv8) == Byte1(w) >> 4
    ensures (((w >> 16) & 15) as bv8) == Byte2(w) & 15 && (((w >> 20) & 15) as bv8) == Byte2(w) >> 4
    ensures (((w >> 24) & 15) as bv8) == Byte3(w) & 15 && (((w >> 28) & 15) as bv8) == Byte3(w) >> 4
  {
  }

  /** One byte's entry is its two replacements, shifted to the byte's place and rotated. */
  lemma ExpandedIs(t: Table, i: nat, b: bv8, n0: Word, n1: Word)
    requires i < 4 && n0 < 16 && n1 < 16 && n0 as bv8 == b & 15 && n1 as bv8 == b >> 4
    ensures Expanded(t, i, b as int) == Rotate11(Placed(Paired(Replaced(t[2 * i], n0), Replaced(t[2 * i + 1], n1)), i))
  {
    hide Rotate11, Placed, Paired;
    LowNibble(b);
    HighNibble(b);
  }

  /** The bits that a replacement wider than a nibble shares with the next one. */
  function Overlap(y: bv8, x: bv8): bv8 {
    (y >> 4) & (x & 15)
  }

  /** Whether the high replacement of each byte stays clear of the low one of the next. */
  predicate Clear(x1: bv8, x2: bv8, x3: bv8, x4: bv8, x5: bv8, x6: bv8) {
    Overlap(x1, x2) == 0 && Overlap(x3, x4) == 0 && Overlap(x5, x6) == 0
  }

  /** Xor puts lanes side by side exactly when they are clear of each other. */
  lemma Lanes(x0: bv8, x1: bv8, x2: bv8, x3: bv8, x4: bv8, x5: bv8, x6: bv8, x7: bv8)
    ensures LanesMixed(x0, x1, x2, x3, x4, x5, x6, x7) == Rotate11(Joined(x0, x1, x2, x3, x4, x5, x6, x7))
       <==> Clear(x1, x2, x3, x4, x5, x6)
  {
    hide LanesMixed, Rotate11, Joined, Clear;
    if Clear(x1, x2, x3, x4, x5, x6) {
      ClearLanes(x0, x1, x2, x3, x4, x5, x6, x7);
    } else if LanesMixed(x0, x1, x2, x3, x4, x5, x6, x7) == Rotate11(Joined(x0, x1, x2, x3, x4, x5, x6, x7)) {
      LanesClear(x0, x1, x2, x3, x4, x5, x6, x7);
    }
  }

  function LanesMixed(x0: bv8, x1: bv8, x2: bv8, x3: bv8, x4: bv8, x5: bv8, x6: bv8, x7: bv8): Word {
    Mixed(Rotate11(Placed(Paired(x0, x1), 0)), Rotate11(Placed(Paired(x2, x3), 1)),
          Rotate11(Placed(Paired(x4, x5), 2)), Rotate11(Placed(Paired(x6, x7), 3)))
  }

  lemma ClearLanes(x0: bv8, x1: bv8, x2: bv8, x3: bv8, x4: bv8, x5: bv8, x6: bv8, x7: bv8)
    requires Clear(x1, x2, x3, x4, x5, x6)
    ensures LanesMixed(x0, x1, x2, x3, x4, x5, x6, x7) == Rotate11(Joined(x0, x1, x2, x3, x4, x5, x6, x7))
  {
  }

  lemma LanesClear(x0: bv8, x1: bv8, x2: bv8, x3: bv8, x4: bv8, x5: bv8, x6: bv8, x7: bv8)
    requires LanesMixed(x0, x1, x2, x3, x4, x5, x6, x7) == Rotate11(Joined(x0, x1, x2, x3, x4, x5, x6, x7))
    ensures Clear(x1, x2, x3, x4, x5, x6)
  {
  }

  /** For one word: the four lookups are the standard's substitution and rotation exactly when its lanes are clear. */
  lemma LookupAt(t: Table, w: Word)
    ensures F(t, w) == Rotate11(Substituted(t, w))
       <==> Clear(Replaced(t[1], (w >> 4) & 15), Replaced(t[2], (w >> 8) & 15), Replaced(t[3], (w >> 12) & 15),
                  Replaced(t[4], (w >> 16) & 15), Replaced(t[5], (w >> 20) & 15), Replaced(t[6], (w >> 24) & 15))
  {
    hide Expanded, Placed, Paired, Mixed, Joined, Rotate11, Replaced, Byte0, Byte1, Byte2, Byte3, Clear;
    NibblesOfBytes(w);
    Standard(t, w & 15, (w >> 4) & 15, (w >> 8) & 15, (w >> 12) & 15,
             (w >> 16) & 15, (w >> 20) & 15, (w >> 24) & 15, (w >> 28) & 15, Byte0(w), Byte1(w), Byte2(w), Byte3(w));
  }

  lemma Standard(t: Table, n0: Word, n1: Word, n2: Word, n3: Word, n4: Word, n5: Word, n6: Word, n7: Word,
                 b0: bv8, b1: bv8, b2: bv8, b3: bv8)
    requires n0 < 16 && n1 < 16 && n0 as bv8 == b0 & 15 && n1 as bv8 == b0 >> 4
    requires n2 < 16 && n3 < 16 && n2 as bv8 == b1 & 15 && n3 as bv8 == b1 >> 4
    requires n4 < 16 && n5 < 16 && n4 as bv8 == b2 & 15 && n5 as bv8 == b2 >> 4
    requires n6 < 16 && n7 < 16 && n6 as bv8 == b3 & 15 && n7 as bv8 == b3 >> 4
    ensures Mixed(Expanded(t, 0, b0 as int), Expanded(t, 1, b1 as int), Expanded(t, 2, b2 as int), Expanded(t, 3, b3 as int))
         == Rotate11(Joined(Replaced(t[0], n0), Replaced(t[1], n1), Replaced(t[2], n2), Replaced(t[3], n3),
                            Replaced(t[4], n4), Replaced(t[5], n5), Replaced(t[6], n6), Replaced(t[7], n7)))
       <==> Clear(Replaced(t[1], n1), Replaced(t[2], n2), Replaced(t[3], n3),
                  Replaced(t[4], n4), Replaced(t[5], n5), Replaced(t[6], n6))
  {
    hide Expanded, Placed, Paired, Mixed, Joined, Rotate11, Replaced, Clear;
    ExpandedIs(t, 0, b0, n0, n1);
    ExpandedIs(t, 1, b1, n2, n3);
    ExpandedIs(t, 2, b2, n4, n5);
    ExpandedIs(t, 3, b3, n6, n7);
    Lanes(Replaced(t[0], n0), Replaced(t[1], n1), Replaced(t[2], n2), Replaced(t[3], n3),
          Replaced(t[4], n4), Replaced(t[5], n5), Replaced(t[6], n6), Replaced(t[7], n7));
  }

  /** No entry of one row reaches into an entry of the other. */
  predicate Apart(high: seq<bv8>, low: seq<bv8>)
    requires |high| == |low| == 16
  {
    forall a, b :: 0 <= a < 16 && 0 <= b < 16 ==> Overlap(high[a], low[b]) == 0
  }

  predicate Disjoint(t: Table) {
    Apart(t[1], t[2]) && Apart(t[3], t[4]) && Apart(t[5], t[6])
  }

  lemma ApartAt(high: seq<bv8>, low: seq<bv8>, m: Word, n: Word)
    requires |high| == |low| == 16 && Apart(high, low) && m < 16 && n < 16
    ensures Overlap(Replaced(high, m), Replaced(low, n)) == 0
  {
    hide Overlap;
    SmallIndex(m as bv8);
    SmallIndex(n as bv8);
  }

  lemma DisjointStandard(t: Table, w: Word)
    requires Disjoint(t)
    ensures F(t, w) == Rotate11(Substituted(t, w))
  {
    hide F, Rotate11, Substituted, Replaced, Overlap, Apart;
    LookupAt(t, w);
    ApartAt(t[1], t[2], (w >> 4) & 15, (w >> 8) & 15);
    ApartAt(t[3], t[4], (w >> 12) & 15, (w >> 16) & 15);
    ApartAt(t[5], t[6], (w >> 20) & 15, (w >> 24) & 15);
  }

  /** The entry at an index is the replacement of that nibble. */
  lemma EntryAt(row: seq<bv8>, a: nat, n: bv8, m: Word)
    requires |row| == 16 && a < 16 && n == a as bv8 && m < 16 && m as bv8 == n
    ensures Replaced(row, m) == row[a]
  {
    Index(a, n);
  }

  lemma Index(a: nat, n: bv8)
    requires a < 16 && n == a as bv8
    ensures n as int == a && n < 16
  {
  }

  /** A word with two given nibbles. */
  lemma WordAt(a: bv8, b: bv8, w1: Word, w3: Word, w5: Word)
    requires a < 16 && b < 16
    requires w1 == ((a as Word) << 4) | ((b as Word) << 8)
    requires w3 == ((a as Word) << 12) | ((b as Word) << 16)
    requires w5 == ((a as Word) << 20) | ((b as Word) << 24)
    ensures ((w1 >> 4) & 15) as bv8 == a && ((w1 >> 8) & 15) as bv8 == b
    ensures ((w3 >> 12) & 15) as bv8 == a && ((w3 >> 16) & 15) as bv8 == b
    ensures ((w5 >> 20) & 15) as bv8 == a && ((w5 >> 24) & 15) as bv8 == b
  {
  }

  lemma StandardDisjoint(t: Table, a: nat, b: nat)
    requires a < 16 && b < 16 && forall w: Word :: F(t, w) == Rotate11(Substituted(t, w))
    ensures Overlap(t[1][a], t[2][b]) == 0 && Overlap(t[3][a], t[4][b]) == 0 && Overlap(t[5][a], t[6][b]) == 0
  {
    hide F, Rotate11, Substituted, Replaced, Overlap;
    var m, n := a as bv8, b as bv8;
    Index(a, m);
    Index(b, n);
    var w1, w3, w5: Word := ((m as Word) << 4) | ((n as Word) << 8), ((m as Word) << 12) | ((n as Word) << 16),
                            ((m as Word) << 20) | ((n as Word) << 24);
    WordAt(m, n, w1, w3, w5);
    LookupAt(t, w1);
    EntryAt(t[1], a, m, (w1 >> 4) & 15);
    EntryAt(t[2], b, n, (w1 >> 8) & 15);
    LookupAt(t, w3);
    EntryAt(t[3], a, m, (w3 >> 12) & 15);
    EntryAt(t[4], b, n, (w3 >> 16) & 15);
    LookupAt(t, w5);
    EntryAt(t[5], a, m, (w5 >> 20) & 15);
    EntryAt(t[6], b, n, (w5 >> 24) & 15);
  }

  /** The four lookups are the standard's substitution and rotation, for every word, exactly for disjoint tables. */
  lemma LookupIsStandard(t: Table)
    ensures (forall w: Word :: F(t, w) == Rotate11(Substituted(t, w))) <==> Disjoint(t)
  {
    hide F, Rotate11, Substituted, Overlap;
    if Disjoint(t) {
      forall w: Word ensures F(t, w) == Rotate11(Substituted(t, w)) {
        DisjointStandard(t, w);
      }
    } else if forall w: Word :: F(t, w) == Rotate11(Substituted(t, w)) {
      forall a, b | 0 <= a < 16 && 0 <= b < 16
        ensures Overlap(t[1][a], t[2][b]) == 0 && Overlap(t[3][a], t[4][b]) == 0 && Overlap(t[5][a], t[6][b]) == 0
      {
        StandardDisjoint(t, a, b);
      }
    }
  }

  /** The standard's own tables, of nibbles, are disjoint. */
  lemma NibblesDisjoint(t: Table)
    requires Nibbles(t)
    ensures Disjoint(t)
  {
    hide Overlap;
    forall y: bv8, x: bv8 | y < 16 ensures Overlap(y, x) == 0 {
      NibbleClear(y, x);
    }
  }

  lemma NibbleClear(y: bv8, x: bv8)
    requires y < 16
    ensures Overlap(y, x) == 0
  {
  }

  // ----------------------------------------------------------------- cipher

  /** The order of the key words: three times up, once down. */
  function Order(i: nat): (k: nat)
    requires i < 32
    ensures k < 8
  {
    if i < 24 then i % 8 else 31 - i
  }

  const ROUNDS: seq<nat> :=
    [0, 1, 2, 3, 4, 5, 6, 7, 0, 1, 2, 3, 4, 5, 6, 7, 0, 1, 2, 3, 4, 5, 6, 7, 7, 6, 5, 4, 3, 2, 1, 0]

  datatype Halves = Halves(a: Word, b: Word)

  type KeyWords = x: seq<Word> | |x| == 8 witness [0, 0, 0, 0, 0, 0, 0, 0]

  function Xor(a: Word, b: Word): Word { a ^ b }
  function Plus(a: Word, b: Word): Word { a + b }

  /** One round: the left half goes through, the right is xored and they change places. */
  function Round(t: Table, key: Word, h: Halves): Halves {
    Halves(Xor(h.b, F(t, Plus(h.a, key))), h.a)
  }

  function Rounds(t: Table, x: KeyWords, h: Halves, n: nat): Halves
    requires n <= 32
  {
    if n == 0 then h else Round(t, x[Order(n - 1)], Rounds(t, x, h, n - 1))
  }

  /** Section 5 of RFC 5830: 32 rounds, the last without the exchange. */
  function Block(t: Table, x: KeyWords, h: Halves): Halves {
    var r := Rounds(t, x, h, 32);
    Halves(r.b, r.a)
  }

  /** Running the rounds backwards undoes them: the block transformation loses nothing. */
  lemma {:induction false} RoundsInjective(t: Table, x: KeyWords, h: Halves, g: Halves, n: nat)
    requires n <= 32 && Rounds(t, x, h, n) == Rounds(t, x, g, n)
    ensures h == g
    decreases n
  {
    hide F, Xor, Plus;
    if n > 0 {
      var p, q := Rounds(t, x, h, n - 1), Rounds(t, x, g, n - 1);
      XorUndone(p.b, F(t, Plus(p.a, x[Order(n - 1)])));
      XorUndone(q.b, F(t, Plus(q.a, x[Order(n - 1)])));
      RoundsInjective(t, x, h, g, n - 1);
    }
  }

  function Exchanged(h: Halves): Halves {
    Halves(h.b, h.a)
  }

  /** Section 5 of RFC 5830: deciphering takes the key words once up and three times down. */
  function UndoOrder(i: nat): (k: nat)
    requires i < 32
    ensures k < 8
  {
    if i < 8 then i else 7 - i % 8
  }

  function UndoRounds(t: Table, x: KeyWords, h: Halves, n: nat): Halves
    requires n <= 32
  {
    if n == 0 then h else Round(t, x[UndoOrder(n - 1)], UndoRounds(t, x, h, n - 1))
  }

  /** The standard's deciphering of a block: the same rounds in the other order of keys. */
  function Unblock(t: Table, x: KeyWords, h: Halves): Halves {
    Exchanged(UndoRounds(t, x, h, 32))
  }

  lemma RoundUndone(t: Table, key: Word, h: Halves)
    ensures Round(t, key, Exchanged(Round(t, key, h))) == Exchanged(h)
  {
    hide F, Xor, Plus;
    XorUndone(h.b, F(t, Plus(h.a, key)));
  }

  /** One order of the key words is the other backwards. */
  lemma OrderReversed(i: nat)
    requires i < 32
    ensures UndoOrder(i) == Order(31 - i)
  {
  }

  lemma {:induction false} RoundsUndone(t: Table, x: KeyWords, h: Halves, n: nat)
    requires n <= 32
    ensures UndoRounds(t, x, Block(t, x, h), n) == Exchanged(Rounds(t, x, h, 32 - n))
    decreases n
  {
    hide Round, Order, UndoOrder;
    if n > 0 {
      RoundsUndone(t, x, h, n - 1);
      OrderReversed(n - 1);
      RoundUndone(t, x[Order(32 - n)], Rounds(t, x, h, 32 - n));
    }
  }

  /** Deciphering undoes the block transformation. */
  lemma BlockUndone(t: Table, x: KeyWords, h: Halves)
    ensures Unblock(t, x, Block(t, x, h)) == h
  {
    hide Block, UndoRounds;
    RoundsUndone(t, x, h, 32);
    assert Rounds(t, x, h, 0) == h;
  }

  lemma XorUndone(a: Word, k: Word)
    ensures Xor(Xor(a, k), k) == a
  {
  }

  /** `addMod32_1` is addition modulo 2^32 - 1, with 2^32 - 1 itself as a second zero. */
  function AddMod(x: Count, y: Count): (r: Count)
    ensures r == if x + y < 0x1_0000_0000 then x + y else x + y - 0xFFFF_FFFF
    ensures r % 0xFFFF_FFFF == (x + y) % 0xFFFF_FFFF
  {
    var sum := (x + y) % 0x1_0000_0000;
    (sum + if sum < x || sum < y then 1 else 0) % 0x1_0000_0000
  }

  datatype Counter = Counter(n3: Count, n4: Count)

  /** A counter as a block, and a block as a counter. */
  function AsHalves(c: Counter): Halves {
    Halves(WordOf(c.n3), WordOf(c.n4))
  }

  function AsCounter(h: Halves): Counter {
    Counter(CountOf(h.a), CountOf(h.b))
  }

  /** A number as a word and a word as a number, byte by byte. */
  function WordOf(n: Count): Word {
    Load(ByteOf(n % 256), ByteOf(n / 256 % 256), ByteOf(n / 65536 % 256), ByteOf(n / 16777216))
  }

  function ByteOf(n: int): bv8
    requires 0 <= n < 256
  {
    TwoNibbles(NibbleOf(n % 16), NibbleOf(n / 16))
  }

  function NibbleOf(n: int): bv8
    requires 0 <= n < 16
  {
    n as bv8
  }

  /** A byte from its low and its high nibble. */
  function TwoNibbles(l: bv8, h: bv8): bv8 {
    l | (h << 4)
  }

  function CountOf(w: Word): Count {
    Positional(Byte0(w) as int, Byte1(w) as int, Byte2(w) as int, Byte3(w) as int)
  }

  function Positional(b0: int, b1: int, b2: int, b3: int): Count
    requires 0 <= b0 < 256 && 0 <= b1 < 256 && 0 <= b2 < 256 && 0 <= b3 < 256
  {
    b0 + 256 * b1 + 65536 * b2 + 16777216 * b3
  }

  function Start(t: Table, x: KeyWords, sync: Halves): Counter {
    AsCounter(Block(t, x, sync))
  }

  function Next(c: Counter): Counter {
    Counter((c.n3 + C2) % 0x1_0000_0000, AddMod(c.n4, C1))
  }

  /** The counter after j steps. */
  function CounterAt(t: Table, x: KeyWords, sync: Halves, j: nat): Counter {
    if j == 0 then Start(t, x, sync) else Next(CounterAt(t, x, sync, j - 1))
  }

  /** The j-th block of the keystream. */
  function Gamma(t: Table, x: KeyWords, sync: Halves, j: nat): (g: seq<bv8>)
    ensures |g| == 8
  {
    var c := CounterAt(t, x, sync, j + 1);
    var h := Block(t, x, AsHalves(c));
    WordBytes(h.a) + WordBytes(h.b)
  }

  function WordBytes(w: Word): (r: seq<bv8>)
    ensures |r| == 4
  {
    [Byte0(w), Byte1(w), Byte2(w), Byte3(w)]
  }

  // ------------------------------------------------------------- keystream

  lemma ModAdd(a: int, b: int, m: int)
    requires m > 0
    ensures (a % m + b) % m == (a + b) % m
  {
    var q, r := a / m, (a % m + b) % m;
    var k := (a % m + b) / m;
    Distribute(q, k, m);
    QuotientUnique(a + b, m, q + k, r);
  }

  /** One step of the second half, whose values after the first step are 1 to 2^32 - 1. */
  lemma AddModStep(v: Count)
    ensures AddMod(v, C1) == (v + C1 - 1) % 0xFFFF_FFFF + 1
  {
    hide AddMod;
    if v + C1 < 0x1_0000_0000 {
      SmallRemainder(v + C1 - 1, 0xFFFF_FFFF);
    } else {
      QuotientUnique(v + C1 - 1, 0xFFFF_FFFF, 1, v + C1 - 1 - 0xFFFF_FFFF);
    }
  }

  /** The counter in closed form, with the constants of section 6 of RFC 5830. */
  lemma {:induction false} CounterIs(t: Table, x: KeyWords, sync: Halves, j: nat)
    ensures CounterAt(t, x, sync, j).n3 == (Start(t, x, sync).n3 + j * 0x1010101) % 0x1_0000_0000
    ensures j > 0 ==> CounterAt(t, x, sync, j).n4 == (Start(t, x, sync).n4 + j * 0x1010104 - 1) % 0xFFFF_FFFF + 1
  {
    hide Start, AddMod;
    var s := Start(t, x, sync);
    if j == 0 {
      SmallRemainder(s.n3, 0x1_0000_0000);
    } else {
      CounterIs(t, x, sync, j - 1);
      var c := CounterAt(t, x, sync, j - 1);
      ModAdd(s.n3 + (j - 1) * 0x1010101, C2, 0x1_0000_0000);
      AddModStep(c.n4);
      if j > 1 {
        ModAdd(s.n4 + (j - 1) * 0x1010104 - 1, C1, 0xFFFF_FFFF);
      }
    }
  }

  lemma SameRemainder(a: int, b: int, m: int)
    requires m > 0
    ensures a % m == b % m <==> (a - b) % m == 0
  {
    var p, q, k := a / m, b / m, (a - b) / m;
    if a % m == b % m {
      Distribute(p, q, m);
      QuotientUnique(a - b, m, p - q, 0);
    }
    if (a - b) % m == 0 {
      Distribute(q, k, m);
      QuotientUnique(a, m, q + k, b % m);
    }
  }

  /** A step with an inverse modulo m returns to its start only after a multiple of m steps. */
  lemma StepReturns(d: int, c: int, u: int, k: int, m: int)
    requires m > 0 && c * u == k * m + 1
    ensures (d * c) % m == 0 <==> d % m == 0
  {
    if (d * c) % m == 0 {
      var q := d * c / m;
      calc {
        d;
        d * (c * u) - d * (k * m);
        { MulAssoc(d, c, u); MulAssoc(d, k, m); }
        (q * m) * u - (d * k) * m;
        { MulAssoc(q, m, u); MulAssoc(q, u, m); assert m * u == u * m; }
        (q * u) * m - (d * k) * m;
        { Distribute(q * u, d * k, m); }
        (q * u - d * k) * m;
      }
      QuotientUnique(d, m, q * u - d * k, 0);
    }
    if d % m == 0 {
      var q := d / m;
      assert d * c == (q * c) * m by { MulAssoc(q, m, c); MulAssoc(q, c, m); assert m * c == c * m; }
      QuotientUnique(d * c, m, q * c, 0);
    }
  }

  const PERIOD: int := 0x1_0000_0000 * 0xFFFF_FFFF

  /** Neighbouring moduli are both divisors exactly when their product is. */
  lemma BothDivide(d: int)
    ensures d % 0x1_0000_0000 == 0 && d % 0xFFFF_FFFF == 0 <==> d % PERIOD == 0
  {
    if d % 0x1_0000_0000 == 0 && d % 0xFFFF_FFFF == 0 {
      var a, b := d / 0x1_0000_0000, d / 0xFFFF_FFFF;
      assert d == (b - a) * PERIOD;
      QuotientUnique(d, PERIOD, b - a, 0);
    }
    if d % PERIOD == 0 {
      var q := d / PERIOD;
      QuotientUnique(d, 0x1_0000_0000, q * 0xFFFF_FFFF, 0);
      QuotientUnique(d, 0xFFFF_FFFF, q * 0x1_0000_0000, 0);
    }
  }

  /** The counter has the full period. */
  lemma CounterRepeats(t: Table, x: KeyWords, sync: Halves, i: nat, j: nat)
    requires i > 0 && j > 0
    ensures CounterAt(t, x, sync, i) == CounterAt(t, x, sync, j) <==> (i - j) % PERIOD == 0
  {
    hide CounterAt, Start;
    CounterIs(t, x, sync, i);
    CounterIs(t, x, sync, j);
    var s, d := Start(t, x, sync), i - j;
    SameRemainder(s.n3 + i * 0x1010101, s.n3 + j * 0x1010101, 0x1_0000_0000);
    SameRemainder(s.n4 + i * 0x1010104 - 1, s.n4 + j * 0x1010104 - 1, 0xFFFF_FFFF);
    StepReturns(d, 0x1010101, -255, -1, 0x1_0000_0000);
    StepReturns(d, 0x1010104, 2453464978, 9621433, 0xFFFF_FFFF);
    BothDivide(d);
  }

  lemma WordOfBytes(v: Word, w: Word)
    requires Byte0(v) == Byte0(w) && Byte1(v) == Byte1(w) && Byte2(v) == Byte2(w) && Byte3(v) == Byte3(w)
    ensures v == w
  {
  }

  lemma BytesInjective(v: Word, w: Word)
    ensures WordBytes(v) == WordBytes(w) <==> v == w
  {
    hide Byte0, Byte1, Byte2, Byte3;
    if WordBytes(v) == WordBytes(w) {
      var p, q := WordBytes(v), WordBytes(w);
      assert p[0] == q[0] && p[1] == q[1] && p[2] == q[2] && p[3] == q[3];
      WordOfBytes(v, w);
    }
  }

  lemma BlockInjective(t: Table, x: KeyWords, h: Halves, g: Halves)
    ensures Block(t, x, h) == Block(t, x, g) <==> h == g
  {
    hide Block, Unblock;
    BlockUndone(t, x, h);
    BlockUndone(t, x, g);
  }

  lemma LoadBytes(b0: bv8, b1: bv8, b2: bv8, b3: bv8)
    ensures var w := Load(b0, b1, b2, b3); Byte0(w) == b0 && Byte1(w) == b1 && Byte2(w) == b2 && Byte3(w) == b3
  {
  }

  lemma ByteKept(n: int)
    requires 0 <= n < 256
    ensures ByteOf(n) as int == n
  {
    hide TwoNibbles, NibbleOf;
    NibbleKept(n % 16);
    NibbleKept(n / 16);
    NibbleParts(NibbleOf(n % 16), NibbleOf(n / 16));
    ByteValue(ByteOf(n), NibbleOf(n % 16), NibbleOf(n / 16), n % 16, n / 16);
  }

  lemma NibbleKept(n: int)
    requires 0 <= n < 16
    ensures NibbleOf(n) as int == n && NibbleOf(n) < 16
  {
    Index(n, n as bv8);
  }

  lemma ByteValue(b: bv8, l: bv8, h: bv8, m: int, n: int)
    requires b & 0x0f == l && b >> 4 == h && l as int == m && h as int == n
    ensures b as int == 16 * n + m
  {
    LowNibble(b);
    HighNibble(b);
  }

  lemma NibbleParts(l: bv8, h: bv8)
    requires l < 16 && h < 16
    ensures TwoNibbles(l, h) & 0x0f == l && TwoNibbles(l, h) >> 4 == h
  {
  }

  lemma CountBytes(n: Count)
    ensures Positional(n % 256, n / 256 % 256, n / 65536 % 256, n / 16777216) == n
  {
    assert n == n % 256 + 256 * (n / 256) && n / 256 == n / 256 % 256 + 256 * (n / 65536);
    assert n / 65536 == n / 65536 % 256 + 256 * (n / 16777216);
  }

  /** Numbers go to words and back unchanged. */
  lemma CountKept(n: Count)
    ensures CountOf(WordOf(n)) == n
  {
    hide Load, ByteOf, Byte0, Byte1, Byte2, Byte3, Positional;
    ByteKept(n % 256);
    ByteKept(n / 256 % 256);
    ByteKept(n / 65536 % 256);
    ByteKept(n / 16777216);
    LoadBytes(ByteOf(n % 256), ByteOf(n / 256 % 256), ByteOf(n / 65536 % 256), ByteOf(n / 16777216));
    CountBytes(n);
  }

  lemma HalvesInjective(c: Counter, d: Counter)
    ensures AsHalves(c) == AsHalves(d) <==> c == d
  {
    hide WordOf, CountOf;
    CountKept(c.n3);
    CountKept(d.n3);
    CountKept(c.n4);
    CountKept(d.n4);
  }

  /** Two blocks of the keystream are equal exactly when they are a multiple of 2^32 * (2^32 - 1) blocks apart. */
  lemma GammaRepeats(t: Table, x: KeyWords, sync: Halves, i: nat, j: nat)
    ensures Gamma(t, x, sync, i) == Gamma(t, x, sync, j) <==> (i - j) % PERIOD == 0
  {
    hide Gamma, Block, CounterAt, WordBytes, AsHalves;
    var c, d := CounterAt(t, x, sync, i + 1), CounterAt(t, x, sync, j + 1);
    var h, g := Block(t, x, AsHalves(c)), Block(t, x, AsHalves(d));
    GammaIs(t, x, sync, i);
    GammaIs(t, x, sync, j);
    assert (WordBytes(h.a) + WordBytes(h.b))[..4] == WordBytes(h.a) && (WordBytes(h.a) + WordBytes(h.b))[4..] == WordBytes(h.b);
    assert (WordBytes(g.a) + WordBytes(g.b))[..4] == WordBytes(g.a) && (WordBytes(g.a) + WordBytes(g.b))[4..] == WordBytes(g.b);
    BytesInjective(h.a, g.a);
    BytesInjective(h.b, g.b);
    BlockInjective(t, x, AsHalves(c), AsHalves(d));
    HalvesInjective(c, d);
    CounterRepeats(t, x, sync, i + 1, j + 1);
  }

  function XorByte(a: bv8, b: bv8): bv8 { a ^ b }

  function Crypted(t: Table, x: KeyWords, sync: Halves, m: seq<bv8>): seq<bv8> {
    seq(|m|, i requires 0 <= i < |m| => XorByte(m[i], Gamma(t, x, sync, i / 8)[i % 8]))
  }

  /** The same keystream twice is none. */
  lemma CryptedTwice(t: Table, x: KeyWords, sync: Halves, m: seq<bv8>)
    ensures Crypted(t, x, sync, Crypted(t, x, sync, m)) == m
  {
    hide Gamma, XorByte;
    var c := Crypted(t, x, sync, m);
    forall i | 0 <= i < |m| ensures Crypted(t, x, sync, c)[i] == m[i] {
      XorTwice(m[i], Gamma(t, x, sync, i / 8)[i % 8]);
    }
  }

  lemma XorTwice(a: bv8, b: bv8)
    ensures XorByte(XorByte(a, b), b) == a
  {
  }

  /** Four bytes in memory as a word. */
  function Load(b0: bv8, b1: bv8, b2: bv8, b3: bv8): Word {
    (b0 as Word) | ((b1 as Word) << 8) | ((b2 as Word) << 16) | ((b3 as Word) << 24)
  }

  /** Xor on words is xor on their bytes. */
  lemma XorBytes(b0: bv8, b1: bv8, b2: bv8, b3: bv8, n: Word, w: Word)
    requires w == Xor(Load(b0, b1, b2, b3), n)
    ensures Byte0(w) == XorByte(b0, Byte0(n))
    ensures Byte1(w) == XorByte(b1, Byte1(n))
    ensures Byte2(w) == XorByte(b2, Byte2(n))
    ensures Byte3(w) == XorByte(b3, Byte3(n))
  {
  }

  // -------------------------------------------------------------- the class

  class G89 {
    const sbox: array2<Word>
    var sync: Halves
    var x: KeyWords

    constructor ()
      ensures sbox.Length0 == 4 && sbox.Length1 == 256 && fresh(sbox)
    {
      sbox := new Word[4, 256]((i, j) => 0);
      sync, x := Halves(0x40FD452C, 0xF86EDCDB), [0, 0, 0, 0, 0, 0, 0, 0];
    }

    ghost predicate Holds(t: Table)
      reads sbox
    {
      && sbox.Length0 == 4 && sbox.Length1 == 256
      && forall i, k :: 0 <= i < 4 && 0 <= k < 256 ==> sbox[i, k] == Expanded(t, i, k)
    }

    /** `setTable`: two rows of sixteen become one of 256. */
    method SetTable(raw: Table)
      requires sbox.Length0 == 4 && sbox.Length1 == 256
      modifies sbox
      ensures Holds(raw)
    {
      hide Rotate11, Placed, Paired;
      var i := 0;
      while i < 4
        invariant 0 <= i <= 4
        invariant forall l, k :: 0 <= l < i && 0 <= k < 256 ==> sbox[l, k] == Expanded(raw, l, k)
      {
        var k := 0;
        while k < 256
          invariant 0 <= k <= 256
          invariant forall l, m :: 0 <= l < i && 0 <= m < 256 ==> sbox[l, m] == Expanded(raw, l, m)
          invariant forall m :: 0 <= m < k ==> sbox[i, m] == Expanded(raw, i, m)
        {
          var e := Paired(raw[2 * i][k % 16], raw[2 * i + 1][k / 16]);
          e := Placed(e, i);
          sbox[i, k] := Rotate11(e);
          k := k + 1;
        }
        i := i + 1;
      }
    }

    /** `f`. */
    method LookUp(w: Word, ghost t: Table) returns (r: Word)
      requires Holds(t)
      ensures r == F(t, w)
    {
      hide Expanded, Mixed, Byte0, Byte1, Byte2, Byte3;
      r := Mixed(sbox[0, Byte0(w) as int], sbox[1, Byte1(w) as int], sbox[2, Byte2(w) as int], sbox[3, Byte3(w) as int]);
    }

    /** `cryptBlock`: two rounds a pass, in place. */
    method CryptBlock(h: Halves, ghost t: Table) returns (r: Halves)
      requires Holds(t)
      ensures r == Block(t, x, h)
    {
      hide F, Holds, Xor, Plus, KeyIndex, Order;
      var a, b := h.a, h.b;
      var i := 0;
      while i < 31
        invariant 0 <= i <= 32 && i % 2 == 0 && Halves(a, b) == Rounds(t, x, h, i)
      {
        var u := LookUp(Plus(a, x[KeyIndex(i)]), t);
        b := Xor(b, u);
        var v := LookUp(Plus(b, x[KeyIndex(i + 1)]), t);
        a := Xor(a, v);
        i := i + 2;
      }
      r := Halves(b, a);
    }

    /** One keystream block laid over eight bytes of the source. */
    method NextBlock(c: Counter, m: seq<bv8>, junk: seq<bv8>, at: nat, ghost t: Table, ghost j: nat)
      returns (next: Counter, r: seq<bv8>)
      requires Holds(t) && at == 8 * j < |m| && |junk| == 8
      requires c == CounterAt(t, x, sync, j)
      ensures next == CounterAt(t, x, sync, j + 1) && |r| == 8
      ensures forall n :: 0 <= n <= 8 && at + n <= |m| ==> r[..n] == Crypted(t, x, sync, m)[at..at + n]
    {
      hide Holds, Block, Xored, XorByte, WordBytes, Gamma, CounterAt, AddMod, AsHalves, Window;
      next := Counter((c.n3 + C2) % 0x1_0000_0000, AddMod(c.n4, C1));
      CounterStep(t, x, sync, j);
      GammaIs(t, x, sync, j);
      var h := CryptBlock(AsHalves(next), t);
      var w := Window(m, junk, at);
      r := Xored(w, h);
      forall k | 0 <= k < 8 && at + k < |m| ensures r[k] == Crypted(t, x, sync, m)[at + k] {
        XoredBytes(w, h, k);
        InBlock(j, k);
      }
    }

    /** The loop of `cryptData`. */
    method CryptBlocks(dst: array<bv8>, src: seq<bv8>, junk: seq<bv8>, start: Counter, remain: nat, ghost t: Table)
      returns (blocks: nat)
      requires Holds(t) && dst.Length == |src| && |junk| == 8
      requires 1 <= remain <= 8 && remain <= |src| && (|src| - remain) % 8 == 0
      requires start == CounterAt(t, x, sync, 0)
      modifies dst
      ensures dst[..] == Crypted(t, x, sync, src) && 8 * blocks == |src| - remain + 8
    {
      hide Holds, CounterAt, Crypted;
      ghost var spec := Crypted(t, x, sync, src);
      CryptedLength(t, x, sync, src);
      var last := |src| - remain + 1;
      var at, c := 0, start;
      blocks := 0;
      while true
        invariant at == 8 * blocks <= last - 1 && Holds(t)
        invariant c == CounterAt(t, x, sync, blocks)
        invariant dst[..at] == spec[..at]
        decreases |src| - at
      {
        var r;
        c, r := NextBlock(c, src, junk, at, t, blocks);
        blocks := blocks + 1;
        if at + 8 < last {
          Store(dst, at, r);
          assert r == r[..8];
          assert spec[..at + 8] == spec[..at] + spec[at..at + 8];
          at := at + 8;
        } else {
          Store(dst, at, r[..remain]);
          assert spec == spec[..at] + spec[at..at + remain];
          assert dst[..] == dst[..at + remain];
          return;
        }
      }
    }

    /** `cryptData`: one keystream block for every eight bytes begun. */
    method CryptData(dst: array<bv8>, src: seq<bv8>, junk: seq<bv8>, password: seq<bv8>, ghost t: Table)
      returns (blocks: nat)
      requires Holds(t) && |password| == 32 && dst.Length == |src| && |junk| == 8
      modifies this`x, dst
      ensures Holds(t) && dst[..] == Crypted(t, LoadKey(password), sync, src)
      ensures blocks == (|src| + 7) / 8
    {
      hide Holds, CounterAt, Crypted, LoadKey, Block, AsCounter;
      blocks := 0;
      CryptedLength(t, LoadKey(password), sync, src);
      if |src| == 0 {
        return;
      }
      x := LoadKey(password);
      var remain := |src| % 8;
      if remain == 0 {
        remain := 8;
      }
      var h := CryptBlock(sync, t);
      var c := AsCounter(h);
      CounterStart(t, x, sync);
      blocks := CryptBlocks(dst, src, junk, c, remain, t);
      x := [0, 0, 0, 0, 0, 0, 0, 0];
    }

    /** `prepare`: table, start value and key words are all read off the key. */
    method Prepare(k2: seq<bv8>, digest: seq<bv8>) returns (k: seq<bv8>)
      requires sbox.Length0 == 4 && sbox.Length1 == 256 && |digest| == 32
      modifies this`sync, sbox
      ensures var key := FullKey(k2, digest);
        Holds(TableOf(key)) && sync == SyncOf(key) && k == key[..32]
    {
      hide Load, Expanded;
      var key := if |k2| < 32 then digest else k2;
      k := [];
      var iv: seq<bv8> := [];
      var i := 0;
      while i < 32
        invariant 0 <= i <= 32 && k == key[..i]
        invariant |iv| == (i + 3) / 4 && forall n :: 0 <= n < |iv| ==> iv[n] == key[4 * n]
      {
        k := k + [key[i]];
        if i % 4 == 0 {
          iv := iv + [key[i]];
        }
        i := i + 1;
      }
      var rows := KeyTable(key);
      SetTable(rows);
      sync := Halves(Load(iv[0], iv[1], iv[2], iv[3]), Load(iv[4], iv[5], iv[6], iv[7]));
    }

    /** `crypt`, and `decrypt` as well: the two have the same body. */
    method Crypt(input: seq<bv8>, key: seq<bv8>, digest: seq<bv8>, junk: seq<bv8>) returns (ret: seq<bv8>)
      requires sbox.Length0 == 4 && sbox.Length1 == 256 && |digest| == 32 && |junk| == 8
      modifies this, sbox
      ensures ret == Enciphered(input, FullKey(key, digest))
    {
      hide Holds, Crypted, TableOf, SyncOf, LoadKey;
      var k := Prepare(key, digest);
      var dst := new bv8[|input|](i => 0);
      var blocks := CryptData(dst, input, junk, k, TableOf(FullKey(key, digest)));
      ret := dst[..];
    }
  }

  /** The table that `prepare` fills row by row with key bytes. */
  method KeyTable(key: seq<bv8>) returns (rows: seq<seq<bv8>>)
    requires |key| >= 32
    ensures rows == TableOf(key)
  {
    hide KeyByte;
    rows := [];
    var i := 0;
    while i < 8
      invariant 0 <= i <= 8 && rows == TableOf(key)[..i]
    {
      var row: seq<bv8> := [];
      var j := 0;
      while j < 16
        invariant 0 <= j <= 16 && row == TableOf(key)[i][..j]
      {
        var c := (i + 1) * j;
        assert TableOf(key)[i][j] == KeyByte(key, i, j);
        KeyByteIs(key, i, j);
        row := row + [key[c % |key|]];
        j := j + 1;
      }
      assert row == TableOf(key)[i];
      rows := rows + [row];
      i := i + 1;
    }
  }

  method Store(dst: array<bv8>, at: nat, r: seq<bv8>)
    requires at + |r| <= dst.Length
    modifies dst
    ensures dst[..at + |r|] == old(dst[..at]) + r
  {
    forall k | 0 <= k < |r| {
      dst[at + k] := r[k];
    }
  }

  lemma InBlock(j: nat, k: nat)
    requires k < 8
    ensures (8 * j + k) / 8 == j && (8 * j + k) % 8 == k
  {
  }

  /** `cryptRounds[i]`. */
  function KeyIndex(i: nat): (k: nat)
    requires i < 32
    ensures k == Order(i)
  {
    ROUNDS[i]
  }

  /** The eight bytes at a position, whatever lies behind the end of the source. */
  function Window(m: seq<bv8>, junk: seq<bv8>, at: nat): (w: seq<bv8>)
    requires at < |m| && |junk| == 8
    ensures |w| == 8
    ensures forall k :: 0 <= k < 8 && at + k < |m| ==> w[k] == m[at + k]
  {
    (m + junk)[at..at + 8]
  }

  function Xored(w: seq<bv8>, h: Halves): (r: seq<bv8>)
    requires |w| == 8
    ensures |r| == 8
  {
    WordBytes(Xor(Load(w[0], w[1], w[2], w[3]), h.a)) + WordBytes(Xor(Load(w[4], w[5], w[6], w[7]), h.b))
  }

  lemma WordXored(b: seq<bv8>, n: Word, k: nat)
    requires |b| == 4 && k < 4
    ensures WordBytes(Xor(Load(b[0], b[1], b[2], b[3]), n))[k] == XorByte(b[k], WordBytes(n)[k])
  {
    hide Byte0, Byte1, Byte2, Byte3, Load, Xor, XorByte;
    XorBytes(b[0], b[1], b[2], b[3], n, Xor(Load(b[0], b[1], b[2], b[3]), n));
  }

  lemma XoredBytes(w: seq<bv8>, h: Halves, k: nat)
    requires |w| == 8 && k < 8
    ensures Xored(w, h)[k] == XorByte(w[k], (WordBytes(h.a) + WordBytes(h.b))[k])
  {
    hide WordBytes, Load, Xor, XorByte;
    if k < 4 {
      WordXored(w[..4], h.a, k);
    } else {
      WordXored(w[4..], h.b, k - 4);
    }
  }

  lemma CounterStep(t: Table, x: KeyWords, sync: Halves, j: nat)
    ensures CounterAt(t, x, sync, j + 1) == Next(CounterAt(t, x, sync, j))
  {
  }

  lemma GammaIs(t: Table, x: KeyWords, sync: Halves, j: nat)
    ensures var c := CounterAt(t, x, sync, j + 1);
      var h := Block(t, x, AsHalves(c));
      Gamma(t, x, sync, j) == WordBytes(h.a) + WordBytes(h.b)
  {
    hide AsHalves, Block, CounterAt, WordBytes;
  }

  lemma CryptedLength(t: Table, x: KeyWords, sync: Halves, m: seq<bv8>)
    ensures |Crypted(t, x, sync, m)| == |m|
  {
    hide Gamma, XorByte;
  }

  lemma CounterStart(t: Table, x: KeyWords, sync: Halves)
    ensures CounterAt(t, x, sync, 0) == Start(t, x, sync)
  {
  }

  /** Thirty-two bytes as eight words. */
  function LoadKey(k: seq<bv8>): KeyWords
    requires |k| == 32
  {
    seq(8, i requires 0 <= i < 8 => Load(k[4 * i], k[4 * i + 1], k[4 * i + 2], k[4 * i + 3]))
  }

  /** Keys shorter than 32 bytes are replaced by the text of their digest. */
  function FullKey(k: seq<bv8>, digest: seq<bv8>): (r: seq<bv8>)
    requires |digest| == 32
    ensures |r| >= 32
  {
    if |k| < 32 then digest else k
  }

  /** The key byte in row i and column j. */
  function KeyByte(key: seq<bv8>, i: nat, j: nat): bv8
    requires |key| >= 32
  {
    key[((i + 1) * j) % |key|]
  }

  /** The rows that `prepare` fills with key bytes; they are not nibbles in general. */
  function TableOf(key: seq<bv8>): Table
    requires |key| >= 32
  {
    seq(8, i requires 0 <= i < 8 => seq(16, j requires 0 <= j < 16 => KeyByte(key, i, j)))
  }

  /** `prepare` installs nibbles exactly when all the key bytes it uses are nibbles. */
  lemma PreparedNibbles(key: seq<bv8>)
    requires |key| >= 32
    ensures Nibbles(TableOf(key))
       <==> forall i, j :: 0 <= i < 8 && 0 <= j < 16 ==> KeyByte(key, i, j) < 16
  {
    hide KeyByte;
    var t := TableOf(key);
    forall i, j | 0 <= i < 8 && 0 <= j < 16 ensures t[i][j] == KeyByte(key, i, j) {
    }
  }

  /** The text of a digest: digits and small letters. */
  predicate HexText(d: seq<bv8>) {
    forall i :: 0 <= i < |d| ==> 0x30 <= d[i] <= 0x39 || 0x61 <= d[i] <= 0x66
  }

  /** A short key is replaced by such a text, which never gives nibbles. */
  lemma ShortKeysGiveNoNibbles(key: seq<bv8>, digest: seq<bv8>)
    requires |key| < 32 && |digest| == 32 && HexText(digest)
    ensures !Nibbles(TableOf(FullKey(key, digest)))
  {
    assert TableOf(digest)[0][0] == KeyByte(digest, 0, 0) == digest[0];
  }

  function SyncOf(key: seq<bv8>): Halves
    requires |key| >= 32
  {
    Halves(Load(key[0], key[4], key[8], key[12]), Load(key[16], key[20], key[24], key[28]))
  }

  function Enciphered(m: seq<bv8>, key: seq<bv8>): seq<bv8>
    requires |key| >= 32
  {
    Crypted(TableOf(key), LoadKey(key[..32]), SyncOf(key), m)
  }

  /** Of a long key only the first 121 bytes matter. */
  lemma LongKeysAgree(m: seq<bv8>, a: seq<bv8>, b: seq<bv8>)
    requires |a| >= 121 && |b| >= 121 && a[..121] == b[..121]
    ensures Enciphered(m, a) == Enciphered(m, b)
  {
    hide Crypted, LoadKey, Load;
    assert forall i :: 0 <= i < 121 ==> a[i] == a[..121][i] == b[i];
    assert a[..32] == a[..121][..32] && b[..32] == b[..121][..32];
    forall i, j | 0 <= i < 8 && 0 <= j < 16 ensures KeyByte(a, i, j) == KeyByte(b, i, j) {
      KeyByteAt(a, i, j);
      KeyByteAt(b, i, j);
    }
    var t, u := TableOf(a), TableOf(b);
    forall i | 0 <= i < 8 ensures t[i] == u[i] {
      forall j | 0 <= j < 16 ensures t[i][j] == u[i][j] {
        assert t[i][j] == KeyByte(a, i, j) && u[i][j] == KeyByte(b, i, j);
      }
    }
    assert t == u;
  }

  /** The first row is the first sixteen bytes, and the last byte that matters is the 121st. */
  lemma RowsOfLongKeys(key: seq<bv8>)
    requires |key| >= 121
    ensures TableOf(key)[0] == key[..16] && TableOf(key)[7][15] == key[120]
  {
    hide KeyByte;
    forall j | 0 <= j < 16 ensures TableOf(key)[0][j] == key[..16][j] {
      KeyByteAt(key, 0, j);
      assert TableOf(key)[0][j] == KeyByte(key, 0, j);
    }
    KeyByteAt(key, 7, 15);
    assert TableOf(key)[7][15] == KeyByte(key, 7, 15);
  }

  /** In memory the start value is every fourth byte of the key. */
  lemma SyncBytes(key: seq<bv8>, n: nat)
    requires |key| >= 32 && n < 8
    ensures (WordBytes(SyncOf(key).a) + WordBytes(SyncOf(key).b))[n] == key[4 * n]
  {
    hide Load, Byte0, Byte1, Byte2, Byte3;
    LoadBytes(key[0], key[4], key[8], key[12]);
    LoadBytes(key[16], key[20], key[24], key[28]);
  }

  /** And the key words are its first thirty-two bytes. */
  lemma KeyWordBytes(k: seq<bv8>, n: nat)
    requires |k| == 32 && n < 32
    ensures WordBytes(LoadKey(k)[n / 4])[n % 4] == k[n]
  {
    hide Load, Byte0, Byte1, Byte2, Byte3;
    var i := n / 4;
    LoadBytes(k[4 * i], k[4 * i + 1], k[4 * i + 2], k[4 * i + 3]);
    assert LoadKey(k)[i] == Load(k[4 * i], k[4 * i + 1], k[4 * i + 2], k[4 * i + 3]);
  }

  lemma KeyByteIs(key: seq<bv8>, i: nat, j: nat)
    requires |key| >= 32
    ensures 0 <= (i + 1) * j && KeyByte(key, i, j) == key[((i + 1) * j) % |key|]
  {
  }

  lemma KeyByteAt(key: seq<bv8>, i: nat, j: nat)
    requires |key| >= 121 && i < 8 && j < 16
    ensures 0 <= (i + 1) * j < 121 && KeyByte(key, i, j) == key[(i + 1) * j]
  {
    MulMonotone(i + 1, 8, j);
    SmallRemainder((i + 1) * j, |key|);
  }

  /** Deciphering with the same key gives the message back, on another object and whatever lay behind the buffers. */
  method CryptAndDecrypt(a: G89, b: G89, m: seq<bv8>, key: seq<bv8>, digest: seq<bv8>, junk1: seq<bv8>, junk2: seq<bv8>)
    returns (r: seq<bv8>)
    requires a.sbox.Length0 == 4 && a.sbox.Length1 == 256 && b.sbox.Length0 == 4 && b.sbox.Length1 == 256
    requires |digest| == 32 && |junk1| == 8 && |junk2| == 8
    modifies a, a.sbox, b, b.sbox
    ensures r == m
  {
    hide Crypted, TableOf, SyncOf, LoadKey;
    var c := a.Crypt(m, key, digest, junk1);
    r := b.Crypt(c, key, digest, junk2);
    var k := FullKey(key, digest);
    CryptedTwice(TableOf(k), LoadKey(k[..32]), SyncOf(k), m);
  }
}
