/**
 The signed-magnitude big integer of libs/DH (class `DH`): its digit vector,
 the operators built on the digit loops, and the outcome of a division.
 */
module BigNumber {
  import opened Arithmetic
  import opened Digits
  import opened DigitLoops
  import opened LongDivision

  /** Digits that fit an elementary type (`small` in dh.h). */
  const SMALL: nat := 2

  /** What a division operator does besides its result: the error message, or the arithmetic trap. */
  datatype Outcome = Done | ByZero | Trap

  /**
   The scaling of a divisor whose top digit is the largest 32-bit number divides
   by zero: the sum of one and that digit wraps.  A division gets that far exactly
   when neither the trivial cases, nor the 64-bit path, nor the single-digit path
   applies.
   */
  predicate ScaleTraps(xs: seq<OneDig>, ys: seq<OneDig>) {
    |xs| > SMALL && |ys| >= 2 && ys[|ys| - 1] == BASE - 1 && Val(xs) > Val(ys)
  }

  /** The number of 32-bit digits of a number, and its top digit. */
  function DigitLength(n: nat): nat {
    if n == 0 then 0 else 1 + DigitLength(n / BASE)
  }

  function LeadingDigit(n: nat): OneDig {
    if n < BASE then n else LeadingDigit(n / BASE)
  }

  /** A divisor whose scaling traps: two or more digits, the top one the largest. */
  predicate TrapDivisor(y: nat) {
    DigitLength(y) >= 2 && LeadingDigit(y) == BASE - 1
  }

  lemma OneDigit(y: nat)
    requires y < BASE
    ensures DigitLength(y) <= 1
  {
    assert y / BASE == 0;
  }

  /** The trap condition in terms of the numbers. */
  predicate DivisionTraps(x: nat, y: nat) {
    DigitLength(x) > SMALL && TrapDivisor(y) && x > y
  }

  lemma {:induction false} DigitsOfValue(s: seq<OneDig>)
    requires Normal(s)
    ensures DigitLength(Val(s)) == |s|
    ensures s != [] ==> LeadingDigit(Val(s)) == s[|s| - 1]
  {
    if s != [] {
      DigitsOfValue(s[1..]);
      var v := Val(s[1..]);
      QuotientUnique(Val(s), BASE, v, s[0]);
      if |s| > 1 {
        NormalLength(s[1..], []);
      }
    }
  }

  lemma TrapsByValue(xs: seq<OneDig>, ys: seq<OneDig>)
    requires Normal(xs) && Normal(ys)
    ensures ScaleTraps(xs, ys) <==> DivisionTraps(Val(xs), Val(ys))
  {
    DigitsOfValue(xs);
    DigitsOfValue(ys);
  }

  /** `adjust_size`: rounds a digit count up to a convenient allocation. */
  function AdjustSize(n: nat): (m: nat)
    ensures m >= n && m > SMALL
  {
    var k := if n <= SMALL then SMALL + 1 else n;
    ((k * 4 + 8 + 31) / 32 * 32 - 8) / 4
  }

  /** The vector chosen for n digits has no room left for exactly one n in eight. */
  lemma FullVector(n: nat)
    ensures AdjustSize(n) == n <==> n % 8 == 6
  {
    if n > SMALL {
      var q := (n + 9) / 8;
      assert (n * 4 + 39) / 32 == q;
    }
  }

  /** A product by a digit, with the overflow digit appended when it is not zero, has no leading zero. */
  lemma {:induction false} GrownProduct(xs: seq<OneDig>, low: seq<OneDig>, c: OneDig, k: OneDig)
    requires Normal(xs) && |low| == |xs| && 1 <= k
    requires Val(low) + c * P(|low|) == Val(xs) * k
    ensures Val(low + [c]) == Val(xs) * k
    ensures c == 0 ==> Val(low) == Val(xs) * k && Normal(low)
  {
    hide Val, P;
    ValSnoc(low, c);
    if xs != [] {
      TopDigit(xs);
      TopDigit(low);
      MulMonotone(1, k, Val(xs));
    }
  }

  /** A sum, with the carry appended when it is not zero, has no leading zero. */
  lemma {:induction false} GrownSum(x: seq<OneDig>, y: seq<OneDig>, low: seq<OneDig>, c: OneDig)
    requires Normal(x) && |low| == |x| && Val(low) + c * P(|low|) == Val(x) + Val(y)
    requires |y| <= |x|
    ensures Val(low + [c]) == Val(x) + Val(y)
    ensures c == 0 ==> Val(low) == Val(x) + Val(y) && Normal(low)
  {
    hide Val, P;
    ValSnoc(low, c);
    if x != [] {
      TopDigit(x);
      TopDigit(low);
    }
  }

  /** The operand `add` puts first is the larger one. */
  lemma {:induction false} Larger(x: seq<OneDig>, y: seq<OneDig>, gt: bool)
    requires Normal(x) && Normal(y)
    requires gt <==> |x| > |y| || (|x| == |y| && Val(x) >= Val(y))
    ensures gt <==> Val(x) >= Val(y)
  {
    NormalLength(x, y);
    NormalLength(y, x);
  }

  /** A scaled division yields the quotient and the scaled remainder of the division asked for. */
  lemma Unscale(X: int, Y: int, k: int, q: int, r: int)
    requires 0 < k && 0 < Y && 0 <= X && 0 <= r < Y * k && X * k == q * (Y * k) + r
    ensures q == X / Y && r == (X % Y) * k
  {
    MulAssoc(q, Y, k);
    Distribute(X, q * Y, k);
    var d := X - q * Y;
    assert d * k == r;
    if d < 0 {
      MulMonotone(d, -1, k);
    }
    if d >= Y {
      MulMonotone(Y, d, k);
    }
    QuotientUnique(X, Y, q, d);
  }

  /** The factor `onedig_t(base / (1 + b))` keeps the divisor's length and lifts its top digit to HALF or more. */
  lemma {:induction false} ScaleFits(ys: seq<OneDig>, k: int)
    requires ys != [] && 0 < ys[|ys| - 1] < BASE - 1 && k == BASE / (1 + ys[|ys| - 1])
    ensures 1 <= k < BASE && Val(ys) * k < P(|ys|) && HALF * P(|ys| - 1) <= Val(ys) * k
  {
    var n := |ys| - 1;
    hide Val, P;
    PStep(n);
    ValPrefix(ys, n);
    assert ys[..n + 1] == ys;
    ValBound(ys[..n]);
    ScaleFactor(ys[n], k);
    ScaleBounds(Val(ys), ys[n], P(n), k);
  }

  lemma ScaleBounds(v: int, t: int, w: int, k: int)
    requires 0 < w && 0 < k && t * w <= v < t * w + w && (t + 1) * k <= BASE && HALF <= k * t
    ensures v * k < BASE * w && HALF * w <= v * k
  {
    Distribute(t, 1, w);
    MulMonotone(v + 1, (t + 1) * w, k);
    Distribute(v, 1, k);
    MulRotate(t + 1, w, k);
    MulRotate(w, k, t + 1);
    MulRotate(k, t + 1, w);
    MulMonotone((t + 1) * k, BASE, w);
    MulMonotone(t * w, v, k);
    MulRotate(k, t, w);
    MulMonotone(HALF, k * t, w);
  }

  lemma PStep(n: nat)
    ensures P(n + 1) == BASE * P(n)
  {
  }

  lemma ScaleFactor(t: int, k: int)
    requires 0 < t < BASE - 1 && k == BASE / (1 + t)
    ensures 1 <= k < BASE && (t + 1) * k <= BASE && HALF <= k * t
  {
    DivideBelow(BASE, t + 1, BASE);
    Distribute(t, 1, k);
    assert BASE <= k * t + k + t;
    if t == 1 || k == 1 {
    } else {
      assert (t - 1) * (k - 1) >= 1 by { MulMonotone(1, t - 1, k - 1); }
      assert (t - 1) * (k - 1) == k * t - t - k + 1;
    }
  }

  lemma SingleDigit(s: seq<OneDig>)
    requires |s| == 1
    ensures Val(s) == s[0]
  {
    ValOne(s[0]);
    assert s == [s[0]];
  }

  lemma SignedProduct(p: bool, m: nat, q: bool, n: nat)
    ensures Signed(p, m) * Signed(q, n) == Signed(p == q, m * n)
    ensures m * n == 0 <==> m == 0 || n == 0
  {
    NegateProduct(m, n);
    NegateProduct(m, -(n as int));
  }

  lemma Parity(s: seq<OneDig>)
    ensures Val(s) % 2 == if s == [] then 0 else s[0] % 2
  {
  }

  // ------------------------------------------------- scaling, 64-bit conversion

  /**
   The scaling both division operators apply to a divisor of two or more digits:
   dividend and divisor are multiplied by one factor, and the dividend gets a
   leading zero unless its top digit is already below the divisor's.
   */
  method ScaleOperands(a: array<OneDig>, al: nat, b: array<OneDig>, bl: nat) returns (scale: OneDig, n: nat)
    requires 2 <= bl <= al && al + 2 <= a.Length && bl <= b.Length && a != b
    requires 0 < b[bl - 1] < BASE - 1 && a[al - 1] != 0
    modifies a, b
    ensures 1 <= scale && bl <= n <= al + 2 && HALF <= b[bl - 1]
    ensures Val(b[..bl]) == old(Val(b[..bl])) * scale
    ensures Val(a[..n]) == old(Val(a[..al])) * scale
    ensures Val(a[n - bl..n]) < Val(b[..bl])
    ensures b[bl..] == old(b[bl..])
  {
    hide Val, P;
    scale, n := ScaleBoth(a, al, b, bl);
    if a[n - 1] >= b[bl - 1] {
      ghost var high := a[..n];
      a[n] := 0;
      n := n + 1;
      assert a[..n] == high + [0];
      AppendZero(high);
    }
    CompareAt(a[n - bl..n], b[..bl], bl - 1);
  }

  /** The multiplication of both operands by the scale factor. */
  method ScaleBoth(a: array<OneDig>, al: nat, b: array<OneDig>, bl: nat) returns (scale: OneDig, n: nat)
    requires 0 < bl && 0 < al && al + 2 <= a.Length && bl <= b.Length && a != b
    requires 0 < b[bl - 1] < BASE - 1 && a[al - 1] != 0
    modifies a, b
    ensures 1 <= scale && al <= n <= al + 1 && HALF <= b[bl - 1]
    ensures Val(b[..bl]) == old(Val(b[..bl])) * scale
    ensures Val(a[..n]) == old(Val(a[..al])) * scale
    ensures b[bl..] == old(b[bl..])
  {
    hide Val, P;
    ghost var xs, v := a[..al], Val(b[..bl]);
    var wrapped: OneDig := (1 + b[bl - 1]) % BASE;
    ScaleFits(b[..bl], BASE / wrapped);
    scale := BASE / wrapped;
    n := al;
    if scale != 1 {
      var c := MulSingle(a, al, scale);
      ghost var low := a[..al];
      a[al] := c;
      assert a[..al] == low && a[..al + 1] == low + [c];
      GrownProduct(xs, low, c, scale);
      if c != 0 {
        n := n + 1;
      }
      var d := MulSingle(b, bl, scale);
      ScaledDivisor(b[..bl], d, v * scale);
    } else {
      ScaledDivisor(b[..bl], 0, v);
    }
  }

  lemma {:induction false} AppendZero(s: seq<OneDig>)
    ensures Val(s + [0]) == Val(s)
  {
    ValSnoc(s, 0);
  }

  /** The scaled divisor keeps its length, so the overflow of its scaling is zero. */
  lemma {:induction false} ScaledDivisor(b: seq<OneDig>, d: OneDig, v: int)
    requires b != [] && Val(b) + d * P(|b|) == v && HALF * P(|b| - 1) <= v < P(|b|)
    ensures d == 0 && HALF <= b[|b| - 1]
  {
    hide Val, P;
    if d > 0 {
      MulMonotone(1, d, P(|b|));
    }
    var n := |b| - 1;
    ValPrefix(b, n);
    assert b[..n + 1] == b;
    ValBound(b[..n]);
    if b[n] < HALF {
      MulMonotone(b[n] + 1, HALF, P(n));
      Distribute(b[n], 1, P(n));
    }
  }

  /** `to_ulong`: the low two digits, which are the value of a string of at most two. */
  method ToUlong(d: array<OneDig>, l: nat) returns (ul: TwoDig)
    requires l <= d.Length
    ensures ul == Val(d[..l]) % BASE2
    ensures l <= SMALL ==> ul == Val(d[..l])
  {
    ValEmpty();
    hide Val, P;
    ul := 0;
    var i := l;
    assert d[l..l] == [];
    while i > 0
      invariant 0 <= i <= l && ul == Val(d[i..l]) % BASE2
    {
      i := i - 1;
      ValSuffix(d[..l], i);
      assert d[..l][i..] == d[i..l] && d[..l][i + 1..] == d[i + 1..l];
      ShiftIn(Val(d[i + 1..l]), d[i]);
      ul := ul * BASE % BASE2 + d[i];
    }
    assert d[0..l] == d[..l];
    if l <= SMALL {
      TwoDigitsFit(d[..l]);
    }
  }

  /** A shift by one digit drops what leaves 64 bits. */
  lemma ShiftIn(v: nat, d: OneDig)
    ensures (v % BASE2) * BASE % BASE2 + d == (d + BASE * v) % BASE2
  {
    var q, r := v / BASE2, v % BASE2;
    var h, l := r / BASE, r % BASE;
    assert r == h * BASE + l && v == q * BASE2 + r;
    QuotientUnique(r * BASE, BASE2, h, l * BASE);
    QuotientUnique(d + BASE * v, BASE2, q * BASE + h, l * BASE + d);
  }

  lemma TwoDigitsFit(s: seq<OneDig>)
    requires |s| <= SMALL
    ensures Val(s) < BASE2 && Val(s) % BASE2 == Val(s)
  {
    ValBound(s);
    PMonotone(|s|, 2);
    assert P(2) == BASE * P(1) && P(1) == BASE * P(0);
    SmallRemainder(Val(s), BASE2);
  }

  /** `digit_set`: the digits of a 64-bit number. */
  method DigitSet(ul: TwoDig, d: array<OneDig>) returns (l: nat)
    requires SMALL <= d.Length
    modifies d
    ensures l <= SMALL && Normal(d[..l]) && Val(d[..l]) == ul
  {
    l := 0;
    if ul != 0 {
      d[0] := ul % BASE;
      l := 1;
      var rest := ul / BASE;
      if rest != 0 {
        d[1] := rest;
        l := 2;
        ValTwo(d[..2]);
      } else {
        assert d[..1] == [ul];
        ValOne(d[0]);
      }
    }
  }

  /** The scaled path of `operator%=`: leaves the remainder in the low digits of a. */
  method RemScaled(a: array<OneDig>, al: nat, y: array<OneDig>, bl: nat) returns (trap: bool, n: nat)
    requires 2 <= bl <= al && al + 2 <= a.Length && bl <= y.Length && a != y
    requires a[al - 1] != 0 && y[bl - 1] != 0 && Val(y[..bl]) > 0
    modifies a
    ensures trap <==> y[bl - 1] == BASE - 1
    ensures !trap ==> n <= bl && Val(a[..n]) == old(Val(a[..al])) % Val(y[..bl])
  {
    hide Val, P;
    ghost var X, Y := Val(a[..al]), Val(y[..bl]);
    var b := CopyDigits(y, bl, bl);
    if (1 + b[bl - 1]) % BASE == 0 {
      return true, 0;
    }
    var scale, m := ScaleOperands(a, al, b, bl);
    ghost var qs := Divide(a, b, bl, null, m - bl);
    Unscale(X, Y, scale, Val(qs), Val(a[..bl]));
    n := Trim(a, bl);
    if scale != 1 {
      var rem := DivSingle(a, n, scale);
      ExactQuotient(X % Y, scale, Val(a[..n]), rem);
    }
    trap := false;
  }

  /** The 64-bit path of `operator%=`. */
  method RemUlong(d: array<OneDig>, l: nat, y: array<OneDig>, yl: nat) returns (n: nat)
    requires l <= SMALL <= d.Length && yl <= SMALL && yl <= y.Length && Val(y[..yl]) > 0 && d != y
    modifies d
    ensures n <= SMALL && Val(d[..n]) == old(Val(d[..l])) % Val(y[..yl])
  {
    hide Val, P;
    var u := ToUlong(d, l);
    var m := ToUlong(y, yl);
    assert 0 <= u % m < m;
    n := DigitSet(u % m, d);
  }

  /** The single-digit path of `operator%=`. */
  method RemSingle(d: array<OneDig>, l: nat, y: array<OneDig>) returns (n: nat)
    requires 0 < l <= d.Length && 0 < y.Length && y[0] != 0 && d != y
    modifies d
    ensures n == 1 && Val(y[..1]) > 0 && Val(d[..n]) == old(Val(d[..l])) % Val(y[..1])
  {
    hide Val, P;
    ghost var X := Val(d[..l]);
    var rem := DivSingle(d, l, y[0]);
    SingleDigit(y[..1]);
    QuotientUnique(X, y[0], Val(d[..l]), rem);
    d[0] := rem;
    SingleDigit(d[..1]);
    n := 1;
  }

  /** The 64-bit path of `operator/=`. */
  method QuoUlong(d: array<OneDig>, l: nat, y: array<OneDig>, yl: nat) returns (n: nat)
    requires l <= SMALL <= d.Length && yl <= SMALL && yl <= y.Length && Val(y[..yl]) > 0 && d != y
    modifies d
    ensures n <= SMALL && Val(d[..n]) == old(Val(d[..l])) / Val(y[..yl])
  {
    hide Val, P;
    var u := ToUlong(d, l);
    var m := ToUlong(y, yl);
    MulMonotone(1, m, BASE2);
    DivideBelow(u, m, BASE2);
    n := DigitSet(u / m, d);
  }

  /** The single-digit path of `operator/=`. */
  method QuoSingle(d: array<OneDig>, l: nat, y: array<OneDig>)
    requires 0 < l <= d.Length && 0 < y.Length && y[0] != 0 && d != y
    modifies d
    ensures Val(y[..1]) > 0 && Val(d[..l]) == old(Val(d[..l])) / Val(y[..1])
  {
    hide Val, P;
    ghost var X := Val(d[..l]);
    var rem := DivSingle(d, l, y[0]);
    SingleDigit(y[..1]);
    QuotientUnique(X, y[0], Val(d[..l]), rem);
  }

  /** The scaled path of `operator/=`: works on copies and writes the quotient over the dividend. */
  method QuoScaled(d: array<OneDig>, l: nat, y: array<OneDig>, bl: nat) returns (trap: bool, n: nat)
    requires 2 <= bl <= l <= d.Length && bl <= y.Length && d != y
    requires d[l - 1] != 0 && y[bl - 1] != 0 && Val(y[..bl]) > 0
    modifies d
    ensures trap <==> y[bl - 1] == BASE - 1
    ensures !trap ==> n <= l && Val(d[..n]) == old(Val(d[..l])) / Val(y[..bl])
  {
    hide Val, P;
    ghost var X, Y := Val(d[..l]), Val(y[..bl]);
    var a := CopyDigits(d, l, l + 2);
    var b := CopyDigits(y, bl, bl);
    if (1 + b[bl - 1]) % BASE == 0 {
      return true, 0;
    }
    var scale, m := ScaleOperands(a, l, b, bl);
    n := m - bl;
    ghost var qs := Divide(a, b, bl, d, n);
    Unscale(X, Y, scale, Val(qs), Val(a[..bl]));
    trap := false;
  }

  /** A copy of the low l digits with room for n. */
  method CopyDigits(d: array<OneDig>, l: nat, n: nat) returns (c: array<OneDig>)
    requires l <= d.Length && l <= n
    ensures fresh(c) && c.Length == n && c[..l] == d[..l]
  {
    c := new OneDig[n];
    for i := 0 to l
      invariant forall k :: 0 <= k < i ==> c[k] == d[k]
    {
      c[i] := d[i];
    }
  }

  /** The loop of `adjust`: the length without leading zero digits. */
  method Trim(a: array<OneDig>, l: nat) returns (n: nat)
    requires l <= a.Length
    ensures n <= l && Normal(a[..n]) && Val(a[..n]) == Val(a[..l])
  {
    hide Val, P;
    n := l;
    while n > 0 && a[n - 1] == 0
      invariant n <= l && forall k :: n <= k < l ==> a[k] == 0
    {
      n := n - 1;
    }
    ValLeadingZero(a[..l], n);
    assert a[..l][..n] == a[..n];
  }

  /** The general case of `mul`: a fresh string for the product, the shorter operand outermost. */
  method Product(a: array<OneDig>, la: nat, b: array<OneDig>, lb: nat) returns (r: array<OneDig>, n: nat)
    requires la <= a.Length && lb <= b.Length
    ensures fresh(r) && SMALL <= r.Length && n <= r.Length && Normal(r[..n])
    ensures Val(r[..n]) == Val(a[..la]) * Val(b[..lb])
  {
    hide Val, P;
    r := new OneDig[AdjustSize(la + lb)];
    if la < lb {
      MulStrings(a, la, b, lb, r);
    } else {
      MulStrings(b, lb, a, la, r);
      assert lb + la == la + lb;
    }
    n := Trim(r, la + lb);
  }

  class DH {
    var digit: array<OneDig>
    var length: nat
    var positive: bool

    /** Room for an elementary value, no leading zero digit, and zero is positive. */
    ghost predicate Valid()
      reads this, digit
      ensures Valid() ==> length <= digit.Length
    {
      SMALL <= digit.Length && length <= digit.Length && Normal(digit[..length]) && (length == 0 ==> positive)
    }

    ghost function Ds(): seq<OneDig>
      reads this, digit
      requires length <= digit.Length
    {
      digit[..length]
    }

    ghost function Mag(): nat
      reads this, digit
      requires length <= digit.Length
    {
      Val(digit[..length])
    }

    /** The integer represented. */
    ghost function Value(): int
      reads this, digit
      requires length <= digit.Length
    {
      Signed(positive, Mag())
    }

    /** Two numbers share no digits unless they are one object. */
    ghost predicate Apart(y: DH)
      reads this, y
    {
      y != this ==> y.digit != digit
    }

    lemma ZeroIffEmpty()
      requires Valid()
      ensures Mag() == 0 <==> length == 0
    {
      NormalLength(digit[..length], []);
    }

    // ------------------------------------------------------------ construction

    /** The default constructor: zero. */
    constructor ()
      ensures Valid() && Value() == 0 && fresh(digit) && length == 0
    {
      digit := new OneDig[AdjustSize(SMALL)];
      length, positive := 0, true;
    }

    /** The copy constructor. */
    constructor Copy(y: DH)
      requires y.Valid()
      ensures Valid() && fresh(digit) && Ds() == y.Ds() && Value() == y.Value()
      ensures length == y.length && digit.Length == AdjustSize(y.length)
    {
      var d := new OneDig[AdjustSize(y.length)];
      forall i | 0 <= i < y.length {
        d[i] := y.digit[i];
      }
      digit, length, positive := d, y.length, y.positive;
      new;
      assert digit[..length] == y.digit[..y.length];
    }

    /** The constructor that borrows a digit string. */
    constructor Borrow(dig: array<OneDig>, len: nat, pos: bool)
      requires SMALL <= dig.Length && len <= dig.Length && Normal(dig[..len]) && (len == 0 ==> pos)
      ensures Valid() && digit == dig && length == len && positive == pos
    {
      digit, length, positive := dig, len, pos;
    }

    /** A number of one digit (the literals "0" and "1" in `pow`). */
    constructor Digit(d: OneDig)
      ensures Valid() && Value() == d && fresh(digit)
    {
      digit := new OneDig[AdjustSize(SMALL)];
      length, positive := if d == 0 then 0 else 1, true;
      new;
      digit[0] := d;
      SingleDigit(digit[..1]);
    }

    // ------------------------------------------------------------ digit vector

    /** `resize`: makes room, keeping the digits. */
    method Resize(n: nat)
      requires length <= digit.Length
      modifies this`digit
      ensures digit.Length >= n && digit.Length >= old(digit.Length)
      ensures length <= digit.Length && Ds() == old(Ds())
      ensures digit == old(digit) || fresh(digit)
      ensures n <= old(digit.Length) ==> digit == old(digit)
    {
      if n > digit.Length {
        var d := new OneDig[AdjustSize(n)];
        forall i | 0 <= i < length {
          d[i] := digit[i];
        }
        assert d[..length] == digit[..length];
        digit := d;
      }
    }

    /** `adjust`: drops leading zero digits. */
    method Adjust()
      requires length <= digit.Length
      modifies this`length, this`positive
      ensures length <= old(length) && Normal(Ds()) && Mag() == old(Mag())
      ensures length == 0 ==> positive
      ensures length != 0 ==> positive == old(positive)
    {
      length := Trim(digit, length);
      if length == 0 {
        positive := true;
      }
    }

    /** `is_zero`. */
    method IsZero() returns (zero: bool)
      requires Valid()
      ensures zero <==> Value() == 0
    {
      ZeroIffEmpty();
      return length == 0;
    }

    /** `is_odd`. */
    method IsOdd() returns (odd: bool)
      requires Valid()
      ensures odd <==> Abs(Value()) % 2 == 1
    {
      hide Val, P;
      Parity(Ds());
      return length != 0 && digit[0] % 2 == 1;
    }

    // -------------------------------------------------------------- comparison

    /** `ucompare`: compares magnitudes. */
    method UCompare(y: DH) returns (cmp: int)
      requires Valid() && y.Valid()
      ensures cmp == Sign(Mag() - y.Mag())
    {
      if length < y.length {
        NormalLength(Ds(), y.Ds());
        return -1;
      } else if length > y.length {
        NormalLength(y.Ds(), Ds());
        return 1;
      } else {
        cmp := DigitLoops.Compare(digit, y.digit, 0, length);
        assert y.digit[0..0 + length] == y.digit[..y.length];
      }
    }

    /** `compare`: compares signed numbers. */
    method Compare(y: DH) returns (cmp: int)
      requires Valid() && y.Valid()
      ensures cmp == Sign(Value() - y.Value())
    {
      ZeroIffEmpty();
      y.ZeroIffEmpty();
      if !positive && y.positive {
        return -1;
      } else if positive && !y.positive {
        return 1;
      }
      var result := UCompare(y);
      return if positive then result else -result;
    }

    /** `negate`. */
    method Negate()
      requires Valid()
      modifies this`positive
      ensures Valid() && Value() == -old(Value()) && Mag() == old(Mag())
    {
      ZeroIffEmpty();
      if length != 0 {
        positive := !positive;
      }
    }
  
    // ---------------------------------------------------------------- division

    /** The magnitude part of `operator%=`, before the final `adjust`. */
    method ModMagnitude(y: DH) returns (outcome: Outcome)
      requires Valid() && y.Valid() && Apart(y) && y.length > 0
      modifies this, digit
      ensures y != this ==> y.digit == old(y.digit) && y.length == old(y.length) && y.Ds() == old(y.Ds())
      ensures outcome == if ScaleTraps(old(Ds()), old(y.Ds())) then Trap else Done
      ensures outcome == Done ==> SMALL <= digit.Length && length <= digit.Length
      ensures outcome == Done ==> old(y.Mag()) > 0 && Mag() == old(Mag()) % old(y.Mag())
      ensures positive == old(positive) || (length == 0 && positive)
      ensures digit == old(digit) || fresh(digit)
    {
      hide Val, P;
      y.ZeroIffEmpty();
      ghost var X, Y := Mag(), y.Mag();
      var cmp := UCompare(y);
      if cmp < 0 {
        SmallRemainder(X, Y);
        return Done;
      }
      if cmp == 0 {
        length, positive := 0, true;
        ValEmpty();
        return Done;
      }
      NormalLength(Ds(), y.Ds());
      if length <= SMALL {
        length := RemUlong(digit, length, y.digit, y.length);
      } else if y.length == 1 {
        length := RemSingle(digit, length, y.digit);
      } else {
        Resize(length + 2);
        var trap, n := RemScaled(digit, length, y.digit, y.length);
        if trap {
          return Trap;
        }
        length := n;
      }
      return Done;
    }
  
    /** `operator%=`. */
    method Mod(y: DH) returns (outcome: Outcome)
      requires Valid() && y.Valid() && Apart(y)
      modifies this, digit
      ensures y != this ==> y.Valid() && y.Ds() == old(y.Ds()) && y.Value() == old(y.Value())
      ensures outcome == Trap <==> ScaleTraps(old(Ds()), old(y.Ds()))
      ensures outcome == ByZero <==> old(y.Value()) == 0 && old(Value()) != 0
      ensures outcome == ByZero ==> Valid() && Value() == old(Value())
      ensures outcome == Done ==> Valid()
      ensures outcome == Done && old(y.Value()) != 0 ==> Value() == TRem(old(Value()), old(y.Value()))
      ensures outcome == Done && old(y.Value()) == 0 ==> Value() == 0
      ensures digit == old(digit) || fresh(digit)
    {
      hide Val, P;
      ValEmpty();
      ZeroIffEmpty();
      y.ZeroIffEmpty();
      if y.length == 0 {
        if length == 0 {
          positive := true;
          return Done;
        }
        return ByZero;
      }
      outcome := ModMagnitude(y);
      if outcome == Done {
        Adjust();
      }
    }

    /** The magnitude part of `operator/=`, before the final `adjust` and the sign. */
    method DivMagnitude(y: DH) returns (outcome: Outcome)
      requires Valid() && y.Valid() && Apart(y) && y.length > 0
      modifies this, digit
      ensures y != this ==> y.digit == old(y.digit) && y.length == old(y.length) && y.Ds() == old(y.Ds())
      ensures outcome == if ScaleTraps(old(Ds()), old(y.Ds())) then Trap else Done
      ensures outcome == Done ==> SMALL <= digit.Length && length <= digit.Length
      ensures outcome == Done ==> old(y.Mag()) > 0 && Mag() == old(Mag()) / old(y.Mag())
      ensures positive == old(positive) || (length == 0 && positive)
      ensures digit == old(digit)
    {
      hide Val, P;
      y.ZeroIffEmpty();
      ghost var X, Y := Mag(), y.Mag();
      var cmp := UCompare(y);
      if cmp < 0 {
        length, positive := 0, true;
        ValEmpty();
        SmallRemainder(X, Y);
        return Done;
      }
      if cmp == 0 {
        length := 1;
        digit[0] := 1;
        SingleDigit(Ds());
        QuotientUnique(X, Y, 1, 0);
        return Done;
      }
      NormalLength(Ds(), y.Ds());
      if length <= SMALL {
        length := QuoUlong(digit, length, y.digit, y.length);
      } else if y.length == 1 {
        QuoSingle(digit, length, y.digit);
      } else {
        var trap, n := QuoScaled(digit, length, y.digit, y.length);
        if trap {
          return Trap;
        }
        length := n;
      }
      return Done;
    }

    /** `operator/=`. */
    method Div(y: DH) returns (outcome: Outcome)
      requires Valid() && y.Valid() && Apart(y)
      modifies this, digit
      ensures y != this ==> y.Valid() && y.Ds() == old(y.Ds()) && y.Value() == old(y.Value())
      ensures outcome == Trap <==> ScaleTraps(old(Ds()), old(y.Ds()))
      ensures outcome == ByZero <==> old(y.Value()) == 0 && old(Value()) != 0
      ensures outcome == ByZero ==> Valid() && Value() == old(Value())
      ensures outcome == Done ==> Valid()
      ensures outcome == Done && old(y.Value()) != 0 ==> Value() == TDiv(old(Value()), old(y.Value()))
      ensures outcome == Done && old(y.Value()) == 0 ==> Value() == 1
      ensures digit == old(digit)
    {
      hide Val, P;
      ZeroIffEmpty();
      y.ZeroIffEmpty();
      var divisorPositive := y.positive;
      if y.length == 0 {
        if length == 0 {
          length := 1;
          digit[0] := 1;
          SingleDigit(Ds());
          return Done;
        }
        return ByZero;
      }
      outcome := DivMagnitude(y);
      if outcome == Done {
        Adjust();
        if !divisorPositive {
          Negate();
        }
        ZeroIffEmpty();
      }
    }
  
    // ---------------------------------------------------------- multiplication

    /** Multiplies the magnitude by a digit, growing by the overflow digit. */
    method ScaleBy(d: OneDig)
      requires SMALL <= digit.Length && length <= digit.Length && Normal(Ds()) && d >= 1
      modifies this`digit, this`length, digit
      ensures SMALL <= digit.Length && length <= digit.Length && Normal(Ds())
      ensures Mag() == old(Mag()) * d
      ensures digit == old(digit) || fresh(digit)
    {
      hide Val, P;
      ghost var xs := Ds();
      var c := MulSingle(digit, length, d);
      ghost var low := Ds();
      if c != 0 {
        Resize(length + 1);
        digit[length] := c;
        length := length + 1;
        assert Ds() == low + [c];
      }
      GrownProduct(xs, low, c, d);
    }

    /** `mul`: multiplies by a digit string, which may be this number's own. */
    method MulDigits(dig: array<OneDig>, len: nat, pos: bool)
      requires Valid() && len <= dig.Length && Normal(dig[..len]) && (dig == digit ==> len == length)
      modifies this, digit
      ensures Valid() && Value() == old(Value()) * Signed(pos, old(Val(dig[..len])))
      ensures digit == old(digit) || fresh(digit)
    {
      hide Val, P;
      ZeroIffEmpty();
      SignedProduct(positive, Mag(), pos, Val(dig[..len]));
      ghost var p, product := positive, Mag() * Val(dig[..len]);
      MulMagnitude(dig, len);
      if length == 0 {
        positive := true;
      }
      ZeroIffEmpty();
      if !pos {
        positive := !positive;
        if length == 0 {
          positive := true;
        }
      }
    }

    /** The magnitude part of `mul`. */
    method MulMagnitude(dig: array<OneDig>, len: nat)
      requires Valid() && len <= dig.Length && Normal(dig[..len]) && (dig == digit ==> len == length)
      modifies this`digit, this`length, digit
      ensures SMALL <= digit.Length && length <= digit.Length && Normal(Ds())
      ensures Mag() == old(Mag()) * old(Val(dig[..len]))
      ensures digit == old(digit) || fresh(digit)
    {
      hide Val, P;
      ValEmpty();
      ghost var X, D := Mag(), Val(dig[..len]);
      if len < 2 {
        if len == 0 || dig[0] == 0 {
          length := 0;
          return;
        }
        SingleDigit(dig[..len]);
        if dig[0] != 1 {
          ScaleBy(dig[0]);
        }
      } else if length < 2 {
        if length == 0 || digit[0] == 0 {
          length := 0;
          return;
        }
        SingleDigit(Ds());
        var d := digit[0];
        Reallocate(dig, len);
        if d != 1 {
          ScaleBy(d);
        }
      } else {
        digit, length := Product(digit, length, dig, len);
      }
    }

    /** `reallocate` and the copy after it: takes over another number's digits. */
    method Reallocate(dig: array<OneDig>, len: nat)
      requires SMALL <= digit.Length && len <= dig.Length && dig != digit
      modifies this`digit, this`length, digit
      ensures SMALL <= digit.Length && length == len <= digit.Length && Ds() == old(dig[..len])
      ensures digit == old(digit) || fresh(digit)
    {
      if len + 1 > digit.Length {
        digit := new OneDig[AdjustSize(len + 1)];
      }
      length := len;
      forall i | 0 <= i < len {
        digit[i] := dig[i];
      }
      assert digit[..len] == dig[..len];
    }

    /** `operator*=`. */
    method Mul(y: DH)
      requires Valid() && y.Valid() && Apart(y)
      modifies this, digit
      ensures Valid() && Value() == old(Value()) * old(y.Value())
      ensures digit == old(digit) || fresh(digit)
    {
      MulDigits(y.digit, y.length, y.positive);
    }

    // ---------------------------------------------------------------- addition

    /** `add`: adds another number's digit string. */
    method AddDigits(dig: array<OneDig>, len: nat, pos: bool)
      requires Valid() && len <= dig.Length && Normal(dig[..len]) && (len == 0 ==> pos) && dig != digit
      modifies this, digit
      ensures Valid() && Value() == old(Value()) + Signed(pos, Val(dig[..len]))
      ensures digit == old(digit) || fresh(digit)
    {
      hide Val, P;
      ghost var x, y := Ds(), dig[..len];
      ZeroIffEmpty();
      Resize((if length > len then length else len) + 1);
      var gt := length > len;
      if length == len {
        var cmp := DigitLoops.Compare(digit, dig, 0, len);
        assert dig[0..0 + len] == y;
        gt := cmp >= 0;
      }
      Larger(x, y, gt);
      if positive == pos {
        SumMagnitude(dig, len, gt, x, y);
      } else {
        DiffMagnitude(dig, len, gt, x, y);
        if !gt {
          positive := pos;
        }
        Adjust();
        ZeroIffEmpty();
      }
    }

    /** The subtracting branch of `add`, before the sign and `adjust`. */
    method DiffMagnitude(dig: array<OneDig>, len: nat, gt: bool, ghost x: seq<OneDig>, ghost y: seq<OneDig>)
      requires length < digit.Length && len < digit.Length && len <= dig.Length && dig != digit
      requires x == Ds() && y == dig[..len]
      requires if gt then len <= length && Val(x) >= Val(y) else length <= len && Val(y) >= Val(x)
      modifies this`length, digit
      ensures length <= digit.Length && Mag() == if gt then Val(x) - Val(y) else Val(y) - Val(x)
    {
      hide Val, P;
      if gt {
        DigitLoops.Sub(digit, length, dig, len, digit);
      } else {
        DigitLoops.Sub(dig, len, digit, length, digit);
        length := len;
      }
    }

    /** The adding branch of `add`; x and y are the operands' digits, the larger one chosen by gt. */
    method SumMagnitude(dig: array<OneDig>, len: nat, gt: bool, ghost x: seq<OneDig>, ghost y: seq<OneDig>)
      requires SMALL <= digit.Length && length < digit.Length && len < digit.Length && len <= dig.Length && dig != digit
      requires x == Ds() && y == dig[..len] && Normal(x) && Normal(y)
      requires if gt then len <= length else length <= len
      modifies this`length, digit
      ensures length <= digit.Length && Normal(Ds()) && Mag() == Val(x) + Val(y)
      ensures length == 0 ==> x == [] && y == []
    {
      hide Val, P;
      var c;
      if gt {
        c := DigitLoops.Add(digit, length, dig, len, digit);
      } else {
        c := DigitLoops.Add(dig, len, digit, length, digit);
        length := len;
      }
      ghost var low := Ds();
      if c != 0 {
        digit[length] := c;
        length := length + 1;
        assert Ds() == low + [c];
      }
      GrownSum(if gt then x else y, if gt then y else x, low, c);
    }

    /** `operator+=`, for another number than this one. */
    method Plus(y: DH)
      requires Valid() && y.Valid() && y != this && Apart(y)
      modifies this, digit
      ensures Valid() && Value() == old(Value()) + old(y.Value())
      ensures digit == old(digit) || fresh(digit)
    {
      AddDigits(y.digit, y.length, y.positive);
    }

    /** `operator+=` with an elementary number. */
    method PlusUlong(u: TwoDig)
      requires Valid()
      modifies this, digit
      ensures Valid() && Value() == old(Value()) + u
      ensures digit == old(digit) || fresh(digit)
    {
      var yb := new OneDig[SMALL];
      var yl := DigitSet(u, yb);
      AddDigits(yb, yl, true);
    }

    /** `operator/=` with an elementary number. */
    method DivUlong(u: TwoDig) returns (outcome: Outcome)
      requires Valid()
      modifies this, digit
      ensures outcome == Trap <==> DivisionTraps(Abs(old(Value())), u)
      ensures outcome == ByZero <==> u == 0 && old(Value()) != 0
      ensures outcome == ByZero ==> Valid() && Value() == old(Value())
      ensures outcome == Done ==> Valid() && Value() == if u == 0 then 1 else TDiv(old(Value()), u)
      ensures 0 < u < BASE ==> outcome == Done
      ensures digit == old(digit)
    {
      hide Val, P;
      var yb := new OneDig[SMALL];
      var yl := DigitSet(u, yb);
      ValEmpty();
      var y := new DH.Borrow(yb, yl, true);
      TrapsByValue(Ds(), y.Ds());
      if u < BASE {
        OneDigit(u);
      }
      outcome := Div(y);
    }

    /**
     Adding a number to itself.  Not ok when the digits must move first: the source then reads the
     old ones after they are gone.
     */
    method PlusSelf() returns (ok: bool)
      requires Valid()
      modifies this, digit
      ensures ok <==> old(length) < old(digit.Length)
      ensures ok ==> Valid() && Value() == old(Value()) + old(Value())
      ensures digit == old(digit)
    {
      hide Val, P;
      ok := length + 1 <= digit.Length;
      if ok {
        ghost var x := Ds();
        ZeroIffEmpty();
        var c := DigitLoops.Add(digit, length, digit, length, digit);
        ghost var low := Ds();
        if c != 0 {
          digit[length] := c;
          length := length + 1;
          assert Ds() == low + [c];
        }
        GrownSum(x, x, low, c);
      }
    }
  }

  /** `x = y; x += x`: fails exactly when the length leaves no room in the copy's vector. */
  method DoubleCopy(y: DH) returns (ok: bool, x: DH)
    requires y.Valid()
    ensures fresh(x)
    ensures ok <==> y.length % 8 != 6
    ensures ok ==> x.Valid() && x.Value() == y.Value() + y.Value()
  {
    x := new DH.Copy(y);
    FullVector(y.length);
    ok := x.PlusSelf();
  }
}
