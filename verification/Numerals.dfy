/** Numbers as text in a base: digit characters, the meaning of digits, the text of a number. */
module Numerals {
  import opened Arithmetic

  // --------------------------------------------------------------- characters

  function ToUpper(c: char): char {
    if 'a' <= c <= 'z' then c - 'a' + 'A' else c
  }

  /** The value of a digit character, letters in either case; -1 for any other character. */
  function CharDigit(ch: char): (d: int)
    ensures -1 <= d < 36
  {
    var c := ToUpper(ch);
    if c < '0' then -1
    else if c <= '9' then (c - '0') as int
    else if c < 'A' then -1
    else if c <= 'Z' then (c - 'A') as int + 10
    else -1
  }

  predicate IsDigit(c: char, b: nat) {
    0 <= CharDigit(c) < b
  }

  /** The character for a digit: past 'Z' the code runs on, within a byte. */
  function DigitChar(r: nat): char {
    if r < 10 then '0' + r as char else ((0x41 + r - 10) % 256) as char
  }

  lemma DigitCharInverse(r: nat)
    requires r < 36
    ensures CharDigit(DigitChar(r)) == r && DigitChar(r) != '-' && DigitChar(r) != '+'
    ensures DigitChar(r) == '0' <==> r == 0
  {
  }

  // ----------------------------------------------------------- what text means

  predicate AllDigits(s: string, b: nat) {
    forall i :: 0 <= i < |s| ==> IsDigit(s[i], b)
  }

  /** The number reached from v by reading the digits of s in base b. */
  function Horner(v: nat, s: string, b: nat): nat
    requires AllDigits(s, b)
  {
    if s == [] then v
    else
      var h := Horner(v, s[..|s| - 1], b);
      MulMonotone(0, h, b);
      h * b + CharDigit(s[|s| - 1])
  }

  lemma Halving(n: nat, b: int)
    requires 2 <= b
    ensures n == (n / b) * b + n % b && 0 <= n % b < b
    ensures n >= b ==> 0 < n / b < n
    ensures n < b ==> n % b == n
  {
    var q := n / b;
    assert n == q * b + n % b;
    if n < b {
      SmallRemainder(n, b);
    } else {
      if q <= 0 {
        MulMonotone(q, 0, b);
      }
      MulMonotone(2, b, q);
    }
  }

  /** A number in base b, most significant digit first. */
  function NatText(n: nat, b: nat): (s: string)
    requires 2 <= b
    ensures s != [] && (b <= 36 ==> AllDigits(s, b))
  {
    Halving(n, b);
    assert b <= 36 ==> IsDigit(DigitChar(n % b), b) by {
      if b <= 36 {
        DigitCharInverse(n % b);
      }
    }
    if n < b then [DigitChar(n % b)] else NatText(n / b, b) + [DigitChar(n % b)]
  }

  function SignedText(v: int, b: nat): string
    requires 2 <= b
  {
    if v < 0 then "-" + NatText(-v, b) else NatText(v, b)
  }

  /** The text without the sign that `scan` skips. */
  function Unsigned(s: string): string {
    if s != [] && (s[0] == '-' || s[0] == '+') then s[1..] else s
  }

  /** The number a whole text of digits stands for. */
  function ScanValue(s: string, b: nat): int
    requires AllDigits(Unsigned(s), b)
  {
    Signed(!(s != [] && s[0] == '-'), Horner(0, Unsigned(s), b))
  }

  lemma {:induction false} NatTextMeans(n: nat, b: nat)
    requires 2 <= b <= 36
    ensures Horner(0, NatText(n, b), b) == n
    ensures n > 0 ==> NatText(n, b)[0] != '0'
    ensures NatText(n, b)[0] != '-' && NatText(n, b)[0] != '+'
  {
    hide CharDigit, DigitChar;
    var s := NatText(n, b);
    Halving(n, b);
    DigitCharInverse(n % b);
    if n < b {
      assert s[..|s| - 1] == [];
    } else {
      NatTextMeans(n / b, b);
      assert s[..|s| - 1] == NatText(n / b, b);
    }
  }

  /** A text of k digits needs a number of at least b^(k-1). */
  lemma {:induction false} NatTextSize(n: nat, b: nat)
    requires 2 <= b && n > 0
    ensures Power(b, |NatText(n, b)| - 1) <= n
  {
    hide DigitChar;
    Halving(n, b);
    if n >= b {
      NatTextSize(n / b, b);
      MulMonotone(Power(b, |NatText(n, b)| - 2), n / b, b);
    }
  }

  /** Scanning a printed number gives the number back, sign included. */
  lemma TextRoundTrip(v: int, b: nat)
    requires 2 <= b <= 36
    ensures AllDigits(Unsigned(SignedText(v, b)), b)
    ensures ScanValue(SignedText(v, b), b) == v
    ensures v != 0 ==> Unsigned(SignedText(v, b))[0] != '0'
  {
    var n := Abs(v);
    NatTextMeans(n, b);
    if v < 0 {
      assert SignedText(v, b)[1..] == NatText(n, b);
    }
  }

  /** The digits are those of ASCII, then its capitals; small letters are read alike. */
  lemma Ascii(r: nat)
    requires r < 36
    ensures DigitChar(r) as int == if r < 10 then 48 + r else 55 + r
    ensures CharDigit((if r < 10 then 48 + r else 55 + r) as char) == r
    ensures r >= 10 ==> CharDigit((87 + r) as char) == r
  {
  }
}
