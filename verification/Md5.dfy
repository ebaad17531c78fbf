/**
 The streaming part of MD5 (libs/md5.cpp): how input is cut into blocks, counted and
 padded.  The compression of one block is a parameter.
 */
module Md5 {
  import opened Sequences
  import opened Bytes
  import opened MachineWords

  const BLOCK: nat := 64

  type Word = x: int | 0 <= x < W32

  datatype State = State(a: Word, b: Word, c: Word, d: Word)

  /** `transform`: what one block makes of the state. */
  type Compression = (State, seq<Byte>) -> State

  const INITIAL: State := State(0x67452301, 0xefcdab89, 0x98badcfe, 0x10325476)

  // ---------------------------------------------------------- specification

  /** The state after the whole blocks of a message. */
  function Fold(t: Compression, s: State, m: seq<Byte>): State
    decreases |m|
  {
    if |m| < BLOCK then s else Fold(t, t(s, m[..BLOCK]), m[BLOCK..])
  }

  /** What follows the last whole block. */
  function Tail(m: seq<Byte>): (r: seq<Byte>)
    ensures |r| == |m| % BLOCK
  {
    m[|m| - |m| % BLOCK..]
  }

  function Zeros(n: nat): (z: seq<Byte>)
    ensures |z| == n
  {
    seq(n, i => 0)
  }

  /** The 64-bit length in bits, low byte first. */
  function LengthBytes(n: nat): seq<Byte> {
    var b := 8 * n % W64;
    Little(b % W32) + Little(b / W32)
  }

  function Little(w: Word): (r: seq<Byte>)
    ensures |r| == 4
  {
    [w % 256, w / 256 % 256, w / 65536 % 256, w / 16777216 % 256]
  }

  /** Sections 3.1 and 3.2 of RFC 1321: a one bit, zeros to 56 mod 64, then the length. */
  function Padded(m: seq<Byte>): seq<Byte> {
    m + [0x80] + Zeros((55 - |m|) % BLOCK) + LengthBytes(|m|)
  }

  function Digest(t: Compression, m: seq<Byte>): seq<Byte> {
    var s := Fold(t, INITIAL, Padded(m));
    Little(s.a) + Little(s.b) + Little(s.c) + Little(s.d)
  }

  /** The padded message is whole blocks, and holds the message. */
  lemma PaddedWhole(m: seq<Byte>)
    ensures |Padded(m)| % BLOCK == 0 && m < Padded(m)
    ensures |Padded(m)| - |m| <= 72
  {
  }

  /** The number that bytes stand for, low byte first. */
  function LittleValue(b: seq<Byte>): nat {
    if b == [] then 0 else b[0] + 256 * LittleValue(b[1..])
  }

  lemma LittleMeans(w: Word)
    ensures LittleValue(Little(w)) == w
  {
    hide LittleValue;
    var r := Little(w);
    FourBytes(r);
    assert w == w % 256 + 256 * (w / 256) && w / 256 == w / 256 % 256 + 256 * (w / 65536);
    assert w / 65536 == w / 65536 % 256 + 256 * (w / 16777216);
  }

  lemma FourBytes(r: seq<Byte>)
    requires |r| == 4
    ensures LittleValue(r) == r[0] as int + 256 * (r[1] as int) + 65536 * (r[2] as int) + 16777216 * (r[3] as int)
  {
    var s, t, u := r[1..], r[2..], r[3..];
    assert s[1..] == t && t[1..] == u && u[1..] == [];
    assert LittleValue(u) == r[3];
    assert LittleValue(t) == r[2] + 256 * LittleValue(u);
    assert LittleValue(s) == r[1] + 256 * LittleValue(t);
  }

  /** Section 3.3 of RFC 1321: the four words are these sixteen bytes. */
  lemma InitialBytes()
    ensures Little(INITIAL.a) + Little(INITIAL.b) + Little(INITIAL.c) + Little(INITIAL.d)
         == [0x01, 0x23, 0x45, 0x67, 0x89, 0xab, 0xcd, 0xef, 0xfe, 0xdc, 0xba, 0x98, 0x76, 0x54, 0x32, 0x10]
  {
    assert Little(INITIAL.a) == [0x01, 0x23, 0x45, 0x67];
    assert Little(INITIAL.b) == [0x89, 0xab, 0xcd, 0xef];
    assert Little(INITIAL.c) == [0xfe, 0xdc, 0xba, 0x98];
    assert Little(INITIAL.d) == [0x76, 0x54, 0x32, 0x10];
  }

  /** If blocks changed nothing, the digest would be those bytes: words and bytes keep their order. */
  lemma DigestOfIdentity(t: Compression, m: seq<Byte>)
    requires forall s, b :: t(s, b) == s
    ensures Digest(t, m)
         == [0x01, 0x23, 0x45, 0x67, 0x89, 0xab, 0xcd, 0xef, 0xfe, 0xdc, 0xba, 0x98, 0x76, 0x54, 0x32, 0x10]
  {
    hide Fold, Little, Padded;
    FoldIdentity(t, INITIAL, Padded(m));
    InitialBytes();
  }

  lemma {:induction false} FoldIdentity(t: Compression, s: State, m: seq<Byte>)
    requires forall r, b :: t(r, b) == r
    ensures Fold(t, s, m) == s
    decreases |m|
  {
    if |m| >= BLOCK {
      FoldIdentity(t, s, m[BLOCK..]);
    }
  }

  lemma {:induction false} LittleConcat(a: seq<Byte>, b: seq<Byte>)
    requires |a| == 4
    ensures LittleValue(a + b) == LittleValue(a) + W32 * LittleValue(b)
  {
    var c := a + b;
    FourBytes(a);
    assert c[1..][1..] == c[2..] && c[2..][1..] == c[3..] && c[3..][1..] == c[4..] && c[4..] == b;
    assert LittleValue(c[3..]) == a[3] + 256 * LittleValue(b);
    assert LittleValue(c[2..]) == a[2] + 256 * LittleValue(c[3..]);
    assert LittleValue(c[1..]) == a[1] + 256 * LittleValue(c[2..]);
  }

  /** The padding byte by byte: the message, 0x80, fewer than 64 zeros, and the number of bits in eight bytes. */
  lemma PaddedBytes(m: seq<Byte>)
    ensures var p, n := Padded(m), |m|;
      && |p| >= n + 9 && |p| % 64 == 0 && |p| - n - 9 < 64
      && p[..n] == m && p[n] == 0x80
      && (forall i :: n < i < |p| - 8 ==> p[i] == 0)
      && LittleValue(p[|p| - 8..]) == 8 * n % W64
  {
    hide LittleValue, Little, Padded;
    var n := |m|;
    var b := 8 * n % W64;
    PaddedShape(m);
    LittleMeans(b % W32);
    LittleMeans(b / W32);
    LittleConcat(Little(b % W32), Little(b / W32));
  }

  lemma PaddedShape(m: seq<Byte>)
    ensures var p, n := Padded(m), |m|;
      && |p| >= n + 9 && |p| % 64 == 0 && |p| - n - 9 < 64
      && p[..n] == m && p[n] == 0x80
      && (forall i :: n < i < |p| - 8 ==> p[i] == 0)
      && p[|p| - 8..] == LengthBytes(n)
  {
    hide Little;
    PaddedWhole(m);
    var z := Zeros((55 - |m|) % BLOCK);
    assert Padded(m) == m + [0x80] + z + LengthBytes(|m|);
  }

  /** Whole blocks may be taken in any grouping. */
  lemma {:induction false} FoldConcat(t: Compression, s: State, a: seq<Byte>, b: seq<Byte>)
    requires |a| % BLOCK == 0
    ensures Fold(t, s, a + b) == Fold(t, Fold(t, s, a), b)
    decreases |a|
  {
    if a == [] {
      assert a + b == b;
    } else {
      assert |a| >= BLOCK;
      assert (a + b)[..BLOCK] == a[..BLOCK] && (a + b)[BLOCK..] == a[BLOCK..] + b;
      FoldConcat(t, t(s, a[..BLOCK]), a[BLOCK..], b);
    }
  }

  lemma FoldOne(t: Compression, s: State, a: seq<Byte>)
    requires |a| == BLOCK
    ensures Fold(t, s, a) == t(s, a)
  {
    assert a[..BLOCK] == a && a[BLOCK..] == [];
  }

  /** A message is its whole blocks and its tail. */
  lemma Blocks(m: seq<Byte>) returns (a: seq<Byte>)
    ensures m == a + Tail(m) && |a| % BLOCK == 0
  {
    a := m[..|m| - |m| % BLOCK];
  }

  lemma FoldTail(t: Compression, s: State, a: seq<Byte>, r: seq<Byte>)
    requires |a| % BLOCK == 0 && |r| < BLOCK
    ensures Fold(t, s, a + r) == Fold(t, s, a) && Tail(a + r) == r && |a + r| % BLOCK == |r|
  {
    FoldConcat(t, s, a, r);
    assert |a + r| % BLOCK == |r|;
  }

  /** Completing the tail makes one more block. */
  lemma FillBlock(t: Compression, s0: State, fed: seq<Byte>, part: seq<Byte>)
    requires |fed| % BLOCK + |part| == BLOCK
    ensures Fold(t, s0, fed + part) == t(Fold(t, s0, fed), Tail(fed) + part)
    ensures (|fed| + |part|) % BLOCK == 0
  {
    hide Fold, Tail;
    var a := Blocks(fed);
    FillParts(t, s0, a, Tail(fed), part);
    assert fed + part == (a + Tail(fed)) + part;
  }

  lemma FillParts(t: Compression, s0: State, a: seq<Byte>, r: seq<Byte>, part: seq<Byte>)
    requires |a| % BLOCK == 0 && |r| + |part| == BLOCK && |r| < BLOCK
    ensures Fold(t, s0, (a + r) + part) == t(Fold(t, s0, a + r), r + part)
    ensures (|a + r| + |part|) % BLOCK == 0
  {
    hide Fold, Tail;
    FoldTail(t, s0, a, r);
    FoldConcat(t, s0, a, r + part);
    FoldOne(t, Fold(t, s0, a), r + part);
    assert (a + r) + part == a + (r + part);
    assert |a + r| + |part| == |a| + BLOCK;
  }

  /** Input too short for a block only lengthens the tail. */
  lemma LongerTail(t: Compression, s0: State, fed: seq<Byte>, input: seq<Byte>)
    requires |Tail(fed)| + |input| < BLOCK
    ensures Fold(t, s0, fed + input) == Fold(t, s0, fed)
    ensures Tail(fed + input) == Tail(fed) + input && |fed + input| % BLOCK == |fed| % BLOCK + |input|
  {
    hide Fold, Tail;
    var a := Blocks(fed);
    FoldTail(t, s0, a, Tail(fed));
    FoldTail(t, s0, a, Tail(fed) + input);
    assert fed + input == a + (Tail(fed) + input);
  }

  /** Input left over after whole blocks is the new tail. */
  lemma NewTail(t: Compression, s0: State, fed: seq<Byte>, input: seq<Byte>, i: nat)
    requires i <= |input| < i + BLOCK && (|fed| + i) % BLOCK == 0
    ensures Fold(t, s0, fed + input) == Fold(t, s0, fed + input[..i])
    ensures Tail(fed + input) == input[i..] && |fed + input| % BLOCK == |input| - i
  {
    hide Fold, Tail;
    FoldTail(t, s0, fed + input[..i], input[i..]);
    assert fed + input == (fed + input[..i]) + input[i..];
  }

  // ---------------------------------------------------------------- counter

  /** The low and high word of 8n mod 2^64. */
  predicate Counts(low: Word, high: Word, n: nat) {
    low + W32 * high == 8 * n % W64
  }

  /** The byte position in the buffer can be read off the low word. */
  lemma IndexFromCount(low: Word, high: Word, n: nat)
    requires Counts(low, high, n)
    ensures low / 8 % BLOCK == n % BLOCK
  {
    var q := 8 * n / W64;
    var k := 0x80_0000 * high + 0x80_0000_0000_0000 * q;
    assert low == 8 * n - W32 * high - W64 * q;
    assert low == 8 * (n - BLOCK * k);
    Eighth(n - BLOCK * k);
    WholeBlocksOff(n, k);
  }

  lemma Eighth(w: int)
    ensures 8 * w / 8 == w
  {
  }

  lemma WholeBlocksOff(n: int, k: int)
    ensures (n - BLOCK * k) % BLOCK == n % BLOCK
  {
    var q, r := n / BLOCK, n % BLOCK;
    assert n - BLOCK * k == BLOCK * (q - k) + r;
  }

  /** Two 32-bit additions with a carry test are one 64-bit addition. */
  lemma CountAdds(low: Word, high: Word, n: nat, length: Word, low1: Word, high1: Word)
    requires Counts(low, high, n)
    requires low1 == (low + 8 * length % W32) % W32
    requires high1 == ((high + if low1 < 8 * length % W32 then 1 else 0) % W32 + length / 0x2000_0000) % W32
    ensures Counts(low1, high1, n + length)
  {
    var x, h := 8 * length % W32, length / 0x2000_0000;
    var c := if low1 < x then 1 else 0;
    ShiftParts(length);
    LowWord(low, x, low1);
    HighWord(high, c, h);
    var k := (high + c + h) / W32;
    var q := 8 * n / W64;
    assert 8 * n == q * W64 + (low + W32 * high);
    assert low1 + W32 * high1 == low + x + W32 * high + W32 * h - W64 * k;
    Remainder(8 * (n + length), q + k, low1 + W32 * high1);
  }

  lemma ShiftParts(length: Word)
    ensures 8 * length == length / 0x2000_0000 * W32 + 8 * length % W32 && length / 0x2000_0000 < 8
  {
    var h, r := length / 0x2000_0000, length % 0x2000_0000;
    assert 8 * length == h * W32 + 8 * r && 8 * r < W32;
  }

  lemma LowWord(low: Word, x: Word, low1: Word)
    requires low1 == (low + x) % W32
    ensures low + x == low1 + if low1 < x then W32 else 0
  {
  }

  lemma HighWord(high: Word, c: nat, h: nat)
    requires c <= 1 && h < W32
    ensures ((high + c) % W32 + h) % W32 == high + c + h - (high + c + h) / W32 * W32
  {
  }

  lemma Remainder(v: nat, q: nat, r: nat)
    requires v == q * W64 + r && r < W64
    ensures v % W64 == r
  {
  }

  // -------------------------------------------------------------- the class

  /** Whether the 32-bit test of the block loop wraps round before it fails. */
  predicate Overruns(index: nat, length: nat)
    requires index < BLOCK
  {
    length >= BLOCK - index && length - (length - (BLOCK - index)) % BLOCK + BLOCK >= W32
  }

  lemma OverrunsWhen(index: nat, length: nat)
    requires index < BLOCK
    ensures length < BLOCK - index ==> !Overruns(index, length)
    ensures length >= BLOCK - index ==>
      (Overruns(index, length) <==> length - (length - (BLOCK - index)) % BLOCK + BLOCK >= W32)
  {
  }

  /** Inputs well below 2^32 bytes never do. */
  lemma ShortNeverOverruns(index: nat, length: nat)
    requires index < BLOCK && length < W32 - BLOCK
    ensures !Overruns(index, length)
  {
  }

  /** The test can wrap: the largest input, into an empty buffer. */
  lemma LongestOverruns()
    ensures Overruns(0, W32 - 1)
  {
  }

  method Copy(dst: array<Byte>, at: nat, src: seq<Byte>)
    requires at + |src| <= dst.Length
    modifies dst
    ensures dst[..] == old(dst[..at]) + src + old(dst[at + |src|..])
  {
    var k := 0;
    while k < |src|
      invariant 0 <= k <= |src|
      invariant dst[..] == old(dst[..at]) + src[..k] + old(dst[at + k..])
    {
      dst[at + k] := src[k];
      k := k + 1;
    }
    assert src[..k] == src;
  }

  /** `encode` of one word. */
  method EncodeWord(w: Word) returns (r: seq<Byte>)
    ensures r == Little(w) && |r| == 4 && LittleValue(r) == w
  {
    hide LittleValue;
    LittleMeans(w);
    r := [w % 256, w / 256 % 256, w / 65536 % 256, w / 16777216 % 256];
  }

  class MD5 {
    const transform: Compression
    const buffer: array<Byte>
    var finalized: bool
    var low: Word
    var high: Word
    var state: State
    var digest: seq<Byte>
    /** Everything fed since the object was made or last finalised, and the state it was fed to. */
    ghost var fed: seq<Byte>
    ghost var base: State

    constructor (t: Compression)
      ensures transform == t && Valid() && !finalized && fed == [] && fresh(buffer)
    {
      transform, finalized, low, high := t, false, 0, 0;
      buffer := new Byte[BLOCK](i => 0);
      state, digest, fed, base := INITIAL, [], [], INITIAL;
    }

    ghost predicate Valid()
      reads this, buffer
    {
      && (!finalized ==> base == INITIAL) && buffer.Length == BLOCK && Counts(low, high, |fed|)
      && state == Fold(transform, base, fed) && buffer[..|fed| % BLOCK] == Tail(fed)
    }

    /** The counter part of `update`. */
    method AddCount(length: Word)
      modifies this`low, this`high
      ensures forall n: nat :: Counts(old(low), old(high), n) ==> Counts(low, high, n + length)
    {
      ghost var l, h := low, high;
      low := (low + 8 * length % W32) % W32;
      if low < 8 * length % W32 {
        high := (high + 1) % W32;
      }
      high := (high + length / 0x2000_0000) % W32;
      forall n: nat | Counts(l, h, n) ensures Counts(low, high, n + length) {
        CountAdds(l, h, n, length, low, high);
      }
    }

    /** The blocks that lie inside the input. */
    method WholeBlocks(input: seq<Byte>, from: nat) returns (i: nat, ok: bool)
      requires from <= |input| < W32 && (|fed| + from) % BLOCK == 0
      requires state == Fold(transform, base, fed + input[..from])
      modifies this`state
      ensures ok <==> |input| - (|input| - from) % BLOCK + BLOCK < W32
      ensures ok ==> i <= |input| < i + BLOCK && (|fed| + i) % BLOCK == 0
      ensures ok ==> state == Fold(transform, base, fed + input[..i])
    {
      hide Fold;
      i, ok := from, true;
      ghost var k := 0;
      while (i + BLOCK) % W32 <= |input|
        invariant i == from + BLOCK * k && i <= |input|
        invariant state == Fold(transform, base, fed + input[..i])
        decreases |input| - i
      {
        Aligned(|fed|, from, k, |input|);
        if i + BLOCK > |input| {
          return i, false;
        }
        NextBlock(transform, base, fed, input, i);
        state := transform(state, input[i..i + BLOCK]);
        i := i + BLOCK;
        k := k + 1;
      }
      Aligned(|fed|, from, k, |input|);
    }

    /** `update`. */
    method Update(input: seq<Byte>) returns (ok: bool)
      requires Valid() && |input| < W32
      modifies this, buffer
      ensures ok <==> !Overruns(old(|fed|) % BLOCK, |input|)
      ensures ok ==> Valid() && fed == old(fed) + input
      ensures base == old(base) && finalized == old(finalized)
    {
      hide Fold, Tail, Counts, Overruns;
      IndexFromCount(low, high, |fed|);
      var index := low / 8 % BLOCK;
      OverrunsWhen(index, |input|);
      AddCount(|input|);
      var first := BLOCK - index;
      ok := true;
      if |input| >= first {
        ok := TakeBlocks(input, index, first);
      } else {
        KeepShort(input, index);
      }
      fed := fed + input;
    }

    /** The part of `update` that only stores. */
    method KeepShort(input: seq<Byte>, index: nat)
      requires buffer.Length == BLOCK && index == |fed| % BLOCK && index + |input| < BLOCK
      requires state == Fold(transform, base, fed) && buffer[..index] == Tail(fed)
      modifies buffer
      ensures state == Fold(transform, base, fed + input)
      ensures buffer[..|fed + input| % BLOCK] == Tail(fed + input)
    {
      hide Fold, Tail;
      LongerTail(transform, base, fed, input);
      Copy(buffer, index, input);
      assert buffer[..index + |input|] == Tail(fed) + input;
    }

    /** The part of `update` that compresses. */
    method TakeBlocks(input: seq<Byte>, index: nat, first: nat) returns (ok: bool)
      requires buffer.Length == BLOCK && index == |fed| % BLOCK && first == BLOCK - index <= |input| < W32
      requires state == Fold(transform, base, fed) && buffer[..index] == Tail(fed)
      modifies this`state, buffer
      ensures ok <==> |input| - (|input| - first) % BLOCK + BLOCK < W32
      ensures ok ==> state == Fold(transform, base, fed + input)
      ensures ok ==> buffer[..|fed + input| % BLOCK] == Tail(fed + input)
    {
      hide Fold, Tail;
      FillAndTransform(input, index, first);
      var i;
      i, ok := WholeBlocks(input, first);
      if ok {
        NewTail(transform, base, fed, input, i);
        Copy(buffer, 0, input[i..]);
        assert buffer[..|input| - i] == input[i..];
      }
    }

    /** `finalize`: the padding goes through `update` like any input. */
    method Finalize()
      requires Valid()
      modifies this, buffer
      ensures finalized && Valid()
      ensures old(finalized) ==> digest == old(digest) && state == old(state) && fed == old(fed)
      ensures !old(finalized) ==> digest == Digest(transform, old(fed)) && fed == []
    {
      hide Fold, Tail, Counts, Overruns, Little, LengthBytes;
      if !finalized {
        ghost var m := fed;
        var lo := EncodeWord(low);
        var hi := EncodeWord(high);
        BitsAreLength(low, high, |m|);
        IndexFromCount(low, high, |m|);
        var index := low / 8 % BLOCK;
        var padLen := if index < 56 then 56 - index else 120 - index;
        PaddingLength(|m|, padLen);
        Pad(padLen, lo + hi);
        assert fed == Padded(m);
        var a := EncodeWord(state.a);
        var b := EncodeWord(state.b);
        var c := EncodeWord(state.c);
        var d := EncodeWord(state.d);
        digest := a + b + c + d;
        forall k | 0 <= k < buffer.Length {
          buffer[k] := 0;
        }
        low, high := 0, 0;
        finalized := true;
        fed, base := [], state;
        Emptied(transform, base);
      }
    }

    /** The two calls of `update` in `finalize`. */
    method Pad(padLen: nat, bits: seq<Byte>)
      requires Valid() && 1 <= padLen <= 64 && |bits| == 8
      modifies this, buffer
      ensures Valid() && fed == old(fed) + [0x80] + Zeros(padLen - 1) + bits
      ensures base == old(base) && finalized == old(finalized)
    {
      hide Valid, Overruns;
      var padding := [0x80] + Zeros(63);
      ShortNeverOverruns(|fed| % BLOCK, padLen);
      var ok := Update(padding[..padLen]);
      assert padding[..padLen] == [0x80] + Zeros(padLen - 1);
      ShortNeverOverruns(|fed| % BLOCK, 8);
      ok := Update(bits);
    }

    /** Filling the buffer and compressing it. */
    method FillAndTransform(input: seq<Byte>, index: nat, first: nat)
      requires buffer.Length == BLOCK && index == |fed| % BLOCK && first == BLOCK - index <= |input|
      requires state == Fold(transform, base, fed) && buffer[..index] == Tail(fed)
      modifies this`state, buffer
      ensures (|fed| + first) % BLOCK == 0
      ensures state == Fold(transform, base, fed + input[..first])
    {
      hide Fold, Tail;
      FillBlock(transform, base, fed, input[..first]);
      Copy(buffer, index, input[..first]);
      assert buffer[..] == Tail(fed) + input[..first];
      state := transform(state, buffer[..]);
    }
  }

  /** The saved counter is the length field. */
  lemma BitsAreLength(low: Word, high: Word, n: nat)
    requires Counts(low, high, n)
    ensures Little(low) + Little(high) == LengthBytes(n)
  {
    hide Little;
    var b := 8 * n % W64;
    assert b % W32 == low && b / W32 == high;
  }

  lemma PaddingLength(n: nat, padLen: nat)
    requires padLen == if n % BLOCK < 56 then 56 - n % BLOCK else 120 - n % BLOCK
    ensures padLen >= 1 && padLen - 1 == (55 - n) % BLOCK
  {
    var q, r := n / BLOCK, n % BLOCK;
    assert 55 - n == BLOCK * -q + (55 - r);
  }

  /** The chunks of which none wraps the loop test. */
  predicate NoneOverruns(chunks: seq<seq<Byte>>) {
    forall i :: 0 <= i < |chunks| ==> !Overruns(|Flat(chunks[..i])| % BLOCK, |chunks[i]|)
  }

  /** A digest depends on the concatenation of its inputs only, however they were cut. */
  method DigestOf(t: Compression, chunks: seq<seq<Byte>>) returns (ok: bool, d: seq<Byte>)
    requires forall i :: 0 <= i < |chunks| ==> |chunks[i]| < W32
    ensures ok <==> NoneOverruns(chunks)
    ensures ok ==> d == Digest(t, Flat(chunks))
  {
    hide Digest, Overruns, Flat, MD5.Valid;
    var h := new MD5(t);
    d := [];
    assert chunks[..0] == [];
    FlatNone<Byte>();
    var i := 0;
    while i < |chunks|
      invariant 0 <= i <= |chunks| && h.Valid() && !h.finalized && h.fed == Flat(chunks[..i]) && h.transform == t
      invariant fresh(h) && fresh(h.buffer)
      invariant forall j :: 0 <= j < i ==> !Overruns(|Flat(chunks[..j])| % BLOCK, |chunks[j]|)
    {
      ok := h.Update(chunks[i]);
      if !ok {
        return;
      }
      FlatSnoc(chunks, i);
      i := i + 1;
    }
    assert chunks[..i] == chunks;
    h.Finalize();
    ok, d := true, h.digest;
  }

  lemma Emptied(t: Compression, s: State)
    ensures Fold(t, s, []) == s && Tail([]) == [] && Counts(0, 0, 0)
  {
  }

  lemma Aligned(n: nat, from: nat, k: nat, length: nat)
    requires (n + from) % BLOCK == 0 && from + BLOCK * k <= length
    ensures (n + (from + BLOCK * k)) % BLOCK == 0
    ensures length < from + BLOCK * k + BLOCK ==> from + BLOCK * k == length - (length - from) % BLOCK
  {
    assert n + from == BLOCK * ((n + from) / BLOCK);
    assert n + (from + BLOCK * k) == BLOCK * ((n + from) / BLOCK + k);
    var r := length - from - BLOCK * k;
    assert length - from == BLOCK * k + r;
  }

  lemma NextBlock(t: Compression, s0: State, fed: seq<Byte>, input: seq<Byte>, i: nat)
    requires i + BLOCK <= |input| && (|fed| + i) % BLOCK == 0
    ensures Fold(t, s0, fed + input[..i + BLOCK])
         == t(Fold(t, s0, fed + input[..i]), input[i..i + BLOCK])
  {
    hide Fold;
    var block := input[i..i + BLOCK];
    FoldConcat(t, s0, fed + input[..i], block);
    FoldOne(t, Fold(t, s0, fed + input[..i]), block);
    assert fed + input[..i + BLOCK] == (fed + input[..i]) + block;
  }
}
