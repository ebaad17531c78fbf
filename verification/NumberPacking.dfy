/**
 The pair coding of decimal text (libs/basefunc_std.cpp: `compress_number`, `uncompress_number`): two digits
 that make the code of a letter travel as that letter.
 */
module NumberPacking {
  import opened Wrappers
  import opened Arithmetic
  import opened Numerals
  import opened NumberText
  import opened Bitbase

  // ------------------------------------------------------------------- coding

  /** The codes that stand for two digits. */
  predicate Coded(c: int) {
    65 <= c <= 90 || 97 <= c <= 99
  }

  predicate White(c: char) {
    c == ' ' || '\t' <= c <= '\r'
  }

  function SkipWhite(s: string): (t: string)
    ensures |t| <= |s|
  {
    if s != [] && White(s[0]) then SkipWhite(s[1..]) else s
  }

  /** `stoi` on a text too short to overflow: white space, a sign, then the leading digits, at least one. */
  function Stoi(s: string): Option<int> {
    var t := SkipWhite(s);
    var n := DigitsEnd(Unsigned(t), 10);
    if n == 0 then None else Some(Signed(!(t != [] && t[0] == '-'), Horner(0, Unsigned(t)[..n], 10)))
  }

  function PackPair(x: char, y: char): string {
    var c := Stoi([x, y]);
    if c.Some? && Coded(c.value) then [c.value as char] else [x, y]
  }

  /** The text that `compress_number` makes. */
  function Pack(k: string): string {
    if |k| < 2 then k else PackPair(k[0], k[1]) + Pack(k[2..])
  }

  function UnpackChar(c: char): string {
    if Coded(c as int) then NatText(c as int, 10) else [c]
  }

  /** The text that `uncompress_number` makes. */
  function Unpack(k: string): string {
    if k == [] then [] else UnpackChar(k[0]) + Unpack(k[1..])
  }

  /** `compress_number`. */
  method CompressNumber(k: string) returns (r: string)
    ensures r == Pack(k)
  {
    hide PackPair;
    r := [];
    var i := 0;
    while i < |k| - 1
      invariant 0 <= i <= |k| && Pack(k) == r + Pack(k[i..])
    {
      assert k[i..][2..] == k[i + 2..];
      r := r + PackPair(k[i], k[i + 1]);
      i := i + 2;
    }
    if i < |k| {
      r := r + k[i..];
    }
  }

  /** `uncompress_number`. */
  method UncompressNumber(k: string) returns (r: string)
    ensures r == Unpack(k)
  {
    hide UnpackChar;
    r := [];
    for i := 0 to |k|
      invariant Unpack(k) == r + Unpack(k[i..])
    {
      assert k[i..][1..] == k[i + 1..];
      r := r + UnpackChar(k[i]);
    }
  }

  // ------------------------------------------------------------------- a pair

  lemma ShortHorner(s: string)
    requires |s| <= 2 && AllDigits(s, 10)
    ensures |s| <= 1 ==> Horner(0, s, 10) <= 9
    ensures |s| == 2 ==> Horner(0, s, 10) == 10 * CharDigit(s[0]) + CharDigit(s[1])
  {
    hide CharDigit;
    if |s| == 2 {
      assert s[..1][..0] == [];
      assert Horner(0, s[..1], 10) == CharDigit(s[0]);
    }
  }

  /** Only two decimal digits read as a number as large as a code. */
  lemma StoiPair(x: char, y: char)
    ensures Stoi([x, y]).Some? && Stoi([x, y]).value >= 10 ==> IsDigit(x, 10) && IsDigit(y, 10)
    ensures IsDigit(x, 10) && IsDigit(y, 10) ==> Stoi([x, y]) == Some(10 * CharDigit(x) + CharDigit(y))
  {
    hide Horner;
    var t := SkipWhite([x, y]);
    var u := Unsigned(t);
    var n := DigitsEnd(u, 10);
    assert [x, y][1..] == [y];
    assert |t| <= 2 && (White(x) ==> |t| <= 1) && (!White(x) ==> t == [x, y]);
    ShortHorner(u[..n]);
    assert n == 2 ==> u[..n] == [x, y] && IsDigit(u[..n][0], 10) && IsDigit(u[..n][1], 10);
    if IsDigit(x, 10) && IsDigit(y, 10) {
      assert u == [x, y];
      EndUnique(u, 10, 2);
    }
  }

  lemma PairText(x: char, y: char)
    requires IsDigit(x, 10) && IsDigit(y, 10) && CharDigit(x) > 0
    ensures NatText(10 * CharDigit(x) + CharDigit(y), 10) == [x, y]
  {
    var n := 10 * CharDigit(x) + CharDigit(y);
    assert n / 10 == CharDigit(x) && n % 10 == CharDigit(y);
    assert NatText(n / 10, 10) == [x];
  }

  lemma DigitNotCoded(x: char)
    requires IsDigit(x, 10)
    ensures !Coded(x as int)
  {
  }

  /** A pair is packed exactly when it is the decimal code of a capital letter or of a, b or c. */
  lemma PackedPair(x: char, y: char)
    ensures |PackPair(x, y)| == 1 <==>
      '0' <= x <= '9' && '0' <= y <= '9' &&
      var c := 10 * (x as int - '0' as int) + (y as int - '0' as int);
      65 <= c <= 90 || 97 <= c <= 99
  {
    hide Stoi;
    StoiPair(x, y);
  }

  /** A packed pair unpacks as the pair itself does. */
  lemma UnpackPair(x: char, y: char)
    ensures Unpack(PackPair(x, y)) == Unpack([x, y])
  {
    hide Stoi, NatText, CharDigit;
    StoiPair(x, y);
    var c := Stoi([x, y]);
    if c.Some? && Coded(c.value) {
      DigitNotCoded(x);
      DigitNotCoded(y);
      PairText(x, y);
      assert [x, y][1..] == [y];
      assert Unpack([c.value as char]) == NatText(c.value, 10);
    }
  }

  // --------------------------------------------------------------- round trip

  lemma UnpackEmpty()
    ensures Unpack("") == ""
  {
  }

  lemma UnpackFirst(c: char, k: string)
    ensures Unpack([c] + k) == UnpackChar(c) + Unpack(k)
  {
    hide UnpackChar;
    assert ([c] + k)[1..] == k;
  }

  lemma {:induction false} UnpackConcat(a: string, b: string)
    ensures Unpack(a + b) == Unpack(a) + Unpack(b)
  {
    hide UnpackChar, Unpack;
    if a == [] {
      assert a + b == b;
      UnpackEmpty();
    } else {
      var c, t := a[0], a[1..];
      UnpackConcat(t, b);
      assert a == [c] + t && a + b == [c] + (t + b);
      UnpackFirst(c, t);
      UnpackFirst(c, t + b);
    }
  }

  /** Packing changes nothing that unpacking does not: both ends see the unpacked text. */
  lemma {:induction false} UnpackPack(k: string)
    ensures Unpack(Pack(k)) == Unpack(k)
  {
    hide PackPair, Unpack;
    if |k| >= 2 {
      UnpackPack(k[2..]);
      UnpackPair(k[0], k[1]);
      UnpackConcat(PackPair(k[0], k[1]), Pack(k[2..]));
      UnpackConcat([k[0], k[1]], k[2..]);
      assert k == [k[0], k[1]] + k[2..];
    }
  }

  /** No byte of a text is one of the codes. */
  predicate Plain(k: string) {
    forall i :: 0 <= i < |k| ==> !Coded(k[i] as int)
  }

  /** The text of a code starts with a smaller byte than the code. */
  lemma CodeShrinks(c: int)
    requires Coded(c)
    ensures |NatText(c, 10)| == 2 && NatText(c, 10)[0] as int < 65
  {
    assert NatText(c / 10, 10) == [DigitChar(c / 10)];
  }

  /** Unpacking leaves exactly the plain texts alone and makes every other longer. */
  lemma {:induction false} UnpackKeeps(k: string)
    ensures Plain(k) ==> Unpack(k) == k
    ensures !Plain(k) ==> |Unpack(k)| > |k|
  {
    hide Coded, NatText;
    if k != [] {
      UnpackKeeps(k[1..]);
      if Coded(k[0] as int) {
        CodeShrinks(k[0] as int);
      }
      assert k == [k[0]] + k[1..];
      assert Plain(k) <==> !Coded(k[0] as int) && Plain(k[1..]) by {
        if !Coded(k[0] as int) && Plain(k[1..]) {
          assert forall i :: 0 < i < |k| ==> k[i] == k[1..][i - 1];
        }
        if Plain(k) {
          assert forall i :: 0 <= i < |k| - 1 ==> k[1..][i] == k[i + 1];
        }
      }
    }
  }

  /** What was packed is read back exactly when no byte of it is one of the codes. */
  lemma PackRoundTrip(k: string)
    ensures Unpack(Pack(k)) == k <==> Plain(k)
    ensures Plain(k) <==> forall i :: 0 <= i < |k| ==> !(65 <= k[i] as int <= 90) && !(97 <= k[i] as int <= 99)
  {
    hide Pack, Unpack;
    UnpackPack(k);
    UnpackKeeps(k);
  }

  lemma DecimalPlain(s: string)
    requires AllDigits(s, 10)
    ensures Plain(s)
  {
    forall i | 0 <= i < |s| ensures !Coded(s[i] as int) {
      DigitNotCoded(s[i]);
    }
  }

  /** A number in front of decimal digits survives exactly when none of its bytes is one of the codes. */
  lemma PrefixRoundTrip(h: string, d: string)
    requires AllDigits(d, 10)
    ensures Unpack(Pack(h + d)) == Unpack(h) + d
    ensures Unpack(Pack(h + d)) == h + d <==> Plain(h)
  {
    hide Plain, Pack, Unpack;
    DecimalPlain(d);
    UnpackPack(h + d);
    UnpackConcat(h, d);
    UnpackKeeps(h);
    UnpackKeeps(d);
  }

  lemma {:induction false} UnpackBytes(h: string)
    requires AllBytes(h)
    ensures AllBytes(Unpack(h))
  {
    hide Coded;
    if h != [] {
      UnpackBytes(h[1..]);
      DigitsAreBytes(h[0]);
    }
  }

  lemma DigitsAreBytes(c: char)
    requires c as int < 256
    ensures AllBytes(UnpackChar(c))
  {
    if Coded(c as int) {
      assert NatText(c as int / 10, 10) == [DigitChar(c as int / 10)];
    }
  }

  /** A text that is not plain unpacks to one with a smaller byte at the first difference. */
  lemma {:induction false} UnpackLowers(h: string) returns (i: nat)
    requires !Plain(h)
    ensures i < |h| < |Unpack(h)| && Unpack(h)[..i] == h[..i] && Unpack(h)[i] < h[i]
  {
    hide NatText;
    UnpackKeeps(h);
    var u := Unpack(h);
    if Coded(h[0] as int) {
      CodeShrinks(h[0] as int);
      i := 0;
    } else {
      var t := h[1..];
      assert h == [h[0]] + t && u == [h[0]] + Unpack(t);
      var j := UnpackLowers(t);
      i := j + 1;
      assert u[..i] == [h[0]] + Unpack(t)[..j] && h[..i] == [h[0]] + t[..j];
    }
  }

  /** A number sent in front loses value when one of its bytes is a code. */
  lemma SizeShrinks(n: nat, sz: nat)
    requires n < Pow256(sz) && !Plain(Num(n, sz))
    ensures |Unpack(Num(n, sz))| > sz && Denum(Unpack(Num(n, sz))[..sz]) < n
  {
    hide Unpack, Plain, Num, Denum, Pow256;
    var h := Num(n, sz);
    var i := UnpackLowers(h);
    NumBytes(n, sz);
    UnpackBytes(h);
    NumRoundTrip(n, sz);
    var u := Unpack(h);
    assert u[..sz][..i] == u[..i];
    DenumLess(u[..sz], h, i);
  }
}
