/**
 Reading and printing big integers (libs/DH/dh.cpp: `scan`, `scan_on`, `digits`,
 `as_string`; libs/DH/dh.h: `get_string`).
 */
module NumberText {
  import opened Numerals
  import opened Arithmetic
  import opened Digits
  import opened DigitLoops
  import opened BigNumber

  // ----------------------------------------------------------------- scanning

  /** Appends an overflow digit unless it is zero. */
  method AppendCarry(x: DH, c: OneDig)
    requires SMALL <= x.digit.Length && x.length <= x.digit.Length
    modifies x`digit, x`length, x.digit
    ensures SMALL <= x.digit.Length && x.length <= x.digit.Length
    ensures x.Mag() == old(x.Mag()) + c * P(old(x.length))
    ensures x.digit == old(x.digit) || fresh(x.digit)
    ensures x.length >= old(x.length)
  {
    hide Val, P;
    if c != 0 {
      ghost var low := x.Ds();
      x.Resize(x.length + 1);
      x.digit[x.length] := c;
      x.length := x.length + 1;
      assert x.Ds() == low + [c];
      ValSnoc(low, c);
    }
  }

  /** One pass of the loop of `scan_on`: multiplies by the base and adds a digit. */
  method ScanDigit(x: DH, b: OneDig, dig: OneDig)
    requires SMALL <= x.digit.Length && x.length <= x.digit.Length
    modifies x`digit, x`length, x.digit
    ensures SMALL <= x.digit.Length && x.length <= x.digit.Length
    ensures x.Mag() == old(x.Mag()) * b + dig
    ensures x.digit == old(x.digit) || fresh(x.digit)
  {
    hide Val, P;
    ValEmpty();
    var r := MulSingle(x.digit, x.length, b);
    AppendCarry(x, r);
    if x.length == 0 {
      x.length := 1;
      x.digit[0] := dig;
      SingleDigit(x.Ds());
    } else {
      var t := new OneDig[1];
      t[0] := dig;
      SingleDigit(t[..1]);
      r := DigitLoops.Add(x.digit, x.length, t, 1, x.digit);
      AppendCarry(x, r);
    }
  }

  /** The position of the first character that is not a digit of base b. */
  function DigitsEnd(s: string, b: OneDig): (n: nat)
    ensures n <= |s| && AllDigits(s[..n], b) && (n < |s| ==> !IsDigit(s[n], b))
  {
    if s == [] || !IsDigit(s[0], b) then 0
    else
      var n := 1 + DigitsEnd(s[1..], b);
      assert forall i :: 0 < i < n ==> s[..n][i] == s[1..][..n - 1][i - 1];
      n
  }

  /**
   `scan_on`: reads digits up to the first character that is none.  Only a scan
   that reaches the end of the text drops leading zero digits.
   */
  method ScanOn(x: DH, s: string, b: OneDig) returns (n: nat)
    requires SMALL <= x.digit.Length && x.length <= x.digit.Length
    modifies x, x.digit
    ensures n == DigitsEnd(s, b)
    ensures SMALL <= x.digit.Length && x.length <= x.digit.Length
    ensures x.Mag() == Horner(old(x.Mag()), s[..n], b)
    ensures n == |s| ==> x.Valid()
    ensures x.positive == old(x.positive) || (n == |s| && x.length == 0)
    ensures x.digit == old(x.digit) || fresh(x.digit)
  {
    hide Val, P, CharDigit;
    n := 0;
    while n < |s|
      invariant n <= |s| && AllDigits(s[..n], b)
      invariant SMALL <= x.digit.Length && x.length <= x.digit.Length && x.positive == old(x.positive)
      invariant x.Mag() == Horner(old(x.Mag()), s[..n], b)
      invariant x.digit == old(x.digit) || fresh(x.digit)
    {
      var dig := CharDigit(s[n]);
      if dig < 0 || dig >= b {
        EndUnique(s, b, n);
        return;
      }
      assert s[..n + 1][..n] == s[..n];
      ScanDigit(x, b, dig);
      n := n + 1;
    }
    EndUnique(s, b, n);
    x.Adjust();
  }

  lemma {:induction false} EndUnique(s: string, b: OneDig, n: nat)
    requires n <= |s| && AllDigits(s[..n], b) && (n < |s| ==> !IsDigit(s[n], b))
    ensures n == DigitsEnd(s, b)
  {
    hide CharDigit;
    if s != [] && IsDigit(s[0], b) {
      assert s[..n][0] == s[0];
      assert s[1..][..n - 1] == s[..n][1..];
      EndUnique(s[1..], b, n - 1);
    }
  }

  /** The constructor from text: `scan` on a fresh number. */
  method Scan(s: string, b: OneDig) returns (x: DH, complete: bool)
    ensures fresh(x) && fresh(x.digit) && x.length <= x.digit.Length
    ensures complete <==> AllDigits(Unsigned(s), b)
    ensures complete ==> x.Valid() && x.Value() == ScanValue(s, b)
    ensures !complete ==> x.Mag() == Horner(0, Unsigned(s)[..DigitsEnd(Unsigned(s), b)], b)
  {
    hide Val, P, CharDigit;
    x := new DH();
    var t := s;
    if s != [] && s[0] == '-' {
      x.positive := false;
      t := s[1..];
    } else if s != [] && s[0] == '+' {
      t := s[1..];
    }
    assert t == Unsigned(s);
    var n := ScanOn(x, t, b);
    complete := n == |t|;
    if complete {
      assert t[..n] == t;
      x.ZeroIffEmpty();
    } else {
      assert !IsDigit(t[n], b);
    }
  }

  // ----------------------------------------------------------------- printing

  lemma {:induction false} PowerBase(x: int, y: int, k: nat)
    requires 1 <= x <= y
    ensures 1 <= Power(x, k) <= Power(y, k)
  {
    if k > 0 {
      PowerBase(x, y, k - 1);
      MulMonotone(x, y, Power(x, k - 1));
      MulMonotone(Power(x, k - 1), Power(y, k - 1), y);
    }
  }

  lemma {:induction false} WeightIsPower(n: nat)
    ensures P(n) == Power(2, 32 * n)
  {
    if n > 0 {
      WeightIsPower(n - 1);
      PowerAdd(2, 32, 32 * (n - 1));
      PowerAdd(2, 16, 16);
      PowerAdd(2, 8, 8);
      PowerAdd(2, 4, 4);
      assert Power(2, 4) == 16;
    }
  }

  /** A number of l digits needs at most ceil(32 l / bits) places in a base of at least 2^bits. */
  lemma TextFits(s: seq<OneDig>, b: OneDig, bits: int, d: nat)
    requires 2 <= b && 1 <= bits && Power(2, bits) <= b && Val(s) > 0
    requires d == (32 * |s| + bits - 1) / bits
    ensures |NatText(Val(s), b)| <= d
  {
    hide Val, P, NatText;
    var n, k := Val(s), |NatText(Val(s), b)| - 1;
    NatTextSize(n, b);
    ValBound(s);
    WeightIsPower(|s|);
    PowerPositive(2, bits);
    PowerBase(Power(2, bits), b, k);
    PowerPower(2, bits, k);
    if bits * k >= 32 * |s| {
      PowerMonotone(2, 32 * |s|, bits * k);
    }
    CeilDivision(32 * |s|, bits, k);
  }

  lemma CeilDivision(n: nat, m: int, k: nat)
    requires 1 <= m && m * k < n
    ensures k + 1 <= (n + m - 1) / m
  {
    var q := (n + m - 1) / m;
    assert n + m - 1 == q * m + (n + m - 1) % m;
    if q <= k {
      MulMonotone(q, k, m);
    }
  }

  /** The bit count of `digits`: one less than the number of halvings that empty b. */
  method FloorLog(b: OneDig) returns (bits: int)
    requires 2 <= b
    ensures 1 <= bits && Power(2, bits) <= b
  {
    bits := -1;
    var c: nat := b;
    while c != 0
      invariant -1 <= bits && c * Power(2, bits + 1) <= b
      invariant 0 <= bits ==> Power(2, bits) <= b
      invariant if bits == -1 then c == b else if bits == 0 then c == b / 2 else true
    {
      var w := Power(2, bits + 1);
      assert Power(2, bits + 2) == 2 * w;
      PowerPositive(2, bits + 1);
      MulMonotone(1, c, w);
      MulMonotone(c / 2 * 2, c, w);
      MulAssoc(c / 2, 2, w);
      bits := bits + 1;
      c := c / 2;
    }
  }

  /** `digits`: enough places for the number in base b, from the bit lengths alone. */
  method DigitCount(x: DH, b: OneDig) returns (d: nat)
    requires x.Valid() && 2 <= b
    ensures |SignedText(x.Value(), b)| <= d + 1
  {
    var bits := FloorLog(b);
    d := (32 * x.length + bits - 1) / bits;
    x.ZeroIffEmpty();
    if x.length > 0 {
      TextFits(x.Ds(), b, bits, d);
    }
  }

  /** Dividing by a small base frees at most one digit, and the last one only when the quotient is zero. */
  lemma {:induction false} ShrinkTop(q: seq<OneDig>, v: nat, b: OneDig, r: OneDig)
    requires q != [] && P(|q| - 1) <= v == Val(q) * b + r && r < b
    ensures var n := if q[|q| - 1] == 0 then |q| - 1 else |q|;
      Normal(q[..n]) && Val(q[..n]) == Val(q) && (n == 0 <==> Val(q) == 0)
  {
    hide Val;
    var m := |q| - 1;
    ValEmpty();
    TopDigit(q);
    if q[m] == 0 {
      ValLeadingZero(q, m);
      if m > 0 {
        TopDigit(q[..m]);
        if Val(q) < P(m - 1) {
          MulMonotone(Val(q) + 1, P(m - 1), b);
          MulMonotone(b, BASE, P(m - 1));
        }
      }
    } else {
      assert q[..m + 1] == q;
    }
  }

  /** The digits of a positive number, written from right to left as `as_string` does; -1 if they do not fit. */
  method EmitDigits(dig: array<OneDig>, l: nat, b: OneDig, p: array<char>, end: nat) returns (at: int)
    requires 0 < l <= dig.Length && dig[l - 1] != 0 && 2 <= b && end <= p.Length
    modifies dig, p
    ensures var t := NatText(old(Val(dig[..l])), b);
      if |t| <= end then at == end - |t| && p[at..end] == t && p[end..] == old(p[end..]) else at == -1
  {
    hide Val, P, NatText, DigitChar;
    ghost var n := Val(dig[..l]);
    var len := l;
    at := end;
    ghost var v, t: string := n, [];
    TopDigit(dig[..l]);
    while true
      invariant 0 < len <= l && Normal(dig[..len]) && v == Val(dig[..len]) > 0
      invariant 0 <= at <= end && p[at..end] == t && p[end..] == old(p[end..])
      invariant NatText(n, b) == NatText(v, b) + t
      decreases v
    {
      if at == 0 {
        return -1;
      }
      Halving(v, b);
      NatTextStep(v, b);
      TopDigit(dig[..len]);
      var r := DivSingle(dig, len, b);
      QuotientUnique(v, b, Val(dig[..len]), r);
      ShrinkTop(dig[..len], v, b, r);
      at := at - 1;
      p[at] := DigitChar(r);
      t := [DigitChar(r)] + t;
      v := v / b;
      if dig[len - 1] == 0 {
        assert dig[..len][..len - 1] == dig[..len - 1];
        len := len - 1;
      }
      if len == 0 {
        break;
      }
    }
  }

  lemma NatTextStep(n: nat, b: OneDig)
    requires 2 <= b
    ensures n >= b ==> NatText(n, b) == NatText(n / b, b) + [DigitChar(n % b)]
    ensures n < b ==> NatText(n, b) == [DigitChar(n % b)]
  {
  }

  /** `as_string`: writes the number at the end of the buffer, a terminator last; -1 when it does not fit. */
  method AsString(x: DH, p: array<char>, b: OneDig) returns (at: int)
    requires x.Valid() && 2 <= b
    modifies p
    ensures var t := SignedText(x.Value(), b);
      if |t| < p.Length then at == p.Length - 1 - |t| && p[at..] == t + "\0" else at == -1
  {
    hide Val, P, NatText, SignedText, DH.Value;
    var l := p.Length;
    SignedTextOf(x, b);
    if l < 2 {
      return -1;
    }
    l := l - 1;
    p[l] := '\0';
    x.ZeroIffEmpty();
    if x.length == 0 {
      ZeroText(b);
      p[l - 1] := '0';
      assert p[l - 1..] == "0" + "\0";
      return l - 1;
    }
    var dig := CopyDigits(x.digit, x.length, x.length);
    at := EmitDigits(dig, x.length, b, p, l);
    ghost var u := NatText(x.Mag(), b);
    assert at >= 0 ==> p[at..] == u + "\0";
    if at >= 0 && !x.positive {
      if at == 0 {
        return -1;
      }
      at := at - 1;
      p[at] := '-';
      assert p[at..] == "-" + p[at + 1..];
      assert "-" + (u + "\0") == ("-" + u) + "\0";
    }
  }

  lemma SignedTextOf(x: DH, b: OneDig)
    requires x.Valid() && 2 <= b
    ensures x.positive || x.length == 0 ==> SignedText(x.Value(), b) == NatText(x.Mag(), b)
    ensures !x.positive && x.length > 0 ==> SignedText(x.Value(), b) == "-" + NatText(x.Mag(), b)
    ensures NatText(x.Mag(), b) != []
  {
    hide Val, P;
    x.ZeroIffEmpty();
    NatTextStep(x.Mag(), b);
  }

  lemma ZeroText(b: OneDig)
    requires 2 <= b
    ensures NatText(0, b) == "0"
  {
    NatTextStep(0, b);
    SmallRemainder(0, b);
  }

  /** What a C string keeps of a text. */
  function UpToZero(t: string): (s: string)
    ensures '\0' !in t ==> s == t
  {
    if t == [] || t[0] == '\0' then [] else [t[0]] + UpToZero(t[1..])
  }

  /** In bases up to 36 no digit is the terminator. */
  lemma {:induction false} NoTerminator(n: nat, b: nat)
    requires 2 <= b <= 36
    ensures '\0' !in NatText(n, b)
  {
    assert !IsDigit('\0', b);
  }

  /**
   `get_string`: the buffer of `digits` plus two always suffices.  The text is cut at a terminator among its
   own digits, which only bases beyond 36 can have.
   */
  method GetString(x: DH, b: OneDig) returns (s: string)
    requires x.Valid() && 2 <= b
    ensures s == UpToZero(SignedText(x.Value(), b))
    ensures b <= 36 ==> s == SignedText(x.Value(), b)
  {
    var d := DigitCount(x, b);
    var p := new char[d + 2];
    var at := AsString(x, p, b);
    assert p[at..p.Length - 1] == SignedText(x.Value(), b);
    s := UpToZero(p[at..p.Length - 1]);
    if b <= 36 {
      NoTerminator(Abs(x.Value()), b);
    }
  }
}
