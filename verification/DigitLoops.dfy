/**
 The loops over digit arrays of libs/DH/dh.cpp: single-digit and schoolbook
 multiplication, addition, subtraction, comparison and division by one digit.
 Each works in place on arrays as the source does on digit pointers, and is
 proved against the value of the digit strings.
 */
module DigitLoops {
  import opened Arithmetic
  import opened Digits

  // ---------------------------------------------------------- one loop step

  lemma MulBound(x: OneDig, y: OneDig)
    ensures 0 <= x * y <= (BASE - 1) * (BASE - 1)
  {
    MulMonotone(0, x, y);
    MulMonotone(x, BASE - 1, y);
  }

  /** A carry step: the total x splits into the digit appended and the carry handed on. */
  lemma {:induction false} CarryAppend(acc: seq<OneDig>, p: int, x: int, t: int)
    requires Val(acc) + p * P(|acc|) == t
    ensures Val(acc + [x % BASE]) + (x / BASE) * P(|acc| + 1) == t + (x - p) * P(|acc|)
  {
    var w, lo, hi := P(|acc|), x % BASE, x / BASE;
    ValSnoc(acc, lo);
    MulAssoc(hi, BASE, w);
    Distribute(lo, hi * BASE, w);
    Distribute(x, p, w);
  }

  /** A borrow step: as a carry step, with h one more than the (zero or negative) carry. */
  lemma {:induction false} BorrowAppend(acc: seq<OneDig>, h: int, x: int, t: int)
    requires Val(acc) + (h - 1) * P(|acc|) == t
    ensures Val(acc + [x % BASE]) + (x / BASE - 1) * P(|acc| + 1) == t + (x - BASE - (h - 1)) * P(|acc|)
  {
    CarryAppend(acc, h - 1, x - BASE, t);
    assert (x - BASE) % BASE == x % BASE && (x - BASE) / BASE == x / BASE - 1;
  }

  lemma {:induction false} PrefixSum(s: seq<OneDig>, t: seq<OneDig>, i: nat)
    requires i < |s| && i < |t|
    ensures Val(s[..i + 1]) + Val(t[..i + 1]) == Val(s[..i]) + Val(t[..i]) + (s[i] + t[i]) * P(i)
    ensures Val(s[..i + 1]) - Val(t[..i + 1]) == Val(s[..i]) - Val(t[..i]) + (s[i] - t[i]) * P(i)
  {
    ValPrefix(s, i);
    ValPrefix(t, i);
    Distribute(s[i], t[i], P(i));
  }

  lemma {:induction false} PrefixProduct(s: seq<OneDig>, i: nat, d: int)
    requires i < |s|
    ensures Val(s[..i + 1]) * d == Val(s[..i]) * d + (d * s[i]) * P(i)
  {
    ValPrefix(s, i);
    var v, x, w := Val(s[..i]), s[i], P(i);
    Distribute(v, x * w, d);
    assert (x * w) * d == (d * x) * w;
  }

  // -------------------------------------------------------------------- loops

  /** `digit_mul` by a single digit: replaces the string with the product, returns the overflow. */
  method MulSingle(b: array<OneDig>, l: nat, d: OneDig) returns (c: OneDig)
    requires l <= b.Length
    modifies b
    ensures Val(b[..l]) + c * P(l) == old(Val(b[..l])) * d
    ensures b[l..] == old(b[l..])
  {
    ValEmpty();
    hide Val, P;
    ghost var was := b[..];
    var p: TwoDig := 0;
    var i := 0;
    while i < l
      invariant i <= l
      invariant p < BASE
      invariant forall k :: i <= k < b.Length ==> b[k] == was[k]
      invariant Val(b[..i]) + p * P(i) == Val(was[..i]) * d
    {
      MulBound(d, b[i]);
      ghost var acc, q := b[..i], p;
      p := p + d * b[i];
      CarryAppend(acc, q, p, Val(was[..i]) * d);
      PrefixProduct(was, i, d);
      b[i] := p % BASE;
      p := p / BASE;
      i := i + 1;
      assert b[..i] == acc + [b[i - 1]];
    }
    assert was[..l] == old(b[..l]);
    c := p;
  }

  /** `digit_mul` of two strings: schoolbook multiplication into a third string. */
  method MulStrings(a: array<OneDig>, la: nat, b: array<OneDig>, lb: nat, r: array<OneDig>)
    requires la <= a.Length && lb <= b.Length && la + lb <= r.Length
    requires r != a && r != b
    modifies r
    ensures Val(r[..la + lb]) == Val(a[..la]) * Val(b[..lb])
    ensures r[la + lb..] == old(r[la + lb..])
  {
    ValEmpty();
    hide Val, P;
    for k := 0 to la + lb
      invariant forall j :: 0 <= j < k ==> r[j] == 0
      invariant forall j :: k <= j < r.Length ==> r[j] == old(r[j])
    {
      r[k] := 0;
    }
    ValLeadingZero(r[..lb], 0);
    ghost var x := a[..la];
    var i := 0;
    while i < la
      invariant i <= la
      invariant x == a[..la]
      invariant forall j :: i + lb <= j < la + lb ==> r[j] == 0
      invariant forall j :: la + lb <= j < r.Length ==> r[j] == old(r[j])
      invariant Val(r[..i + lb]) == Val(x[..i]) * Val(b[..lb])
    {
      MulRow(a[i], b, lb, r, i);
      PrefixProduct(x, i, Val(b[..lb]));
      i := i + 1;
    }
    assert x[..la] == x;
  }

  /** One pass of the outer loop of `digit_mul`: adds d times b into r at offset o. */
  method MulRow(d: OneDig, b: array<OneDig>, lb: nat, r: array<OneDig>, o: nat)
    requires lb <= b.Length && o + lb < r.Length && r != b && r[o + lb] == 0
    modifies r
    ensures Val(r[..o + lb + 1]) == old(Val(r[..o + lb])) + (Val(b[..lb]) * d) * P(o)
    ensures forall j :: o + lb < j < r.Length ==> r[j] == old(r[j])
  {
    hide Val, P;
    ghost var low, was := r[..o], r[o..o + lb];
    var p := MulRowLoop(d, b, lb, r, o);
    ghost var row := r[o..o + lb];
    r[o + lb] := p;
    assert r[..o + lb + 1] == low + (row + [p]);
    assert old(r[..o + lb]) == low + was;
    RowTotal(low, row, p, was, Val(b[..lb]) * d);
  }

  /** The inner loop of `digit_mul`; returns the digit that overflows. */
  method MulRowLoop(d: OneDig, b: array<OneDig>, lb: nat, r: array<OneDig>, o: nat) returns (p: OneDig)
    requires lb <= b.Length && o + lb < r.Length && r != b
    modifies r
    ensures Val(r[o..o + lb]) + p * P(lb) == old(Val(r[o..o + lb])) + Val(b[..lb]) * d
    ensures r[..o] == old(r[..o])
    ensures forall j :: o + lb <= j < r.Length ==> r[j] == old(r[j])
  {
    ValEmpty();
    hide Val, P;
    ghost var was, y := r[o..o + lb], b[..lb];
    var c: TwoDig := 0;
    var j := 0;
    assert r[o..o + 0] == was[..0] == y[..0] == [];
    while j < lb
      invariant j <= lb
      invariant c < BASE
      invariant forall k :: 0 <= k < o || o + j <= k < r.Length ==> r[k] == old(r[k])
      invariant Val(r[o..o + j]) + c * P(j) == Val(was[..j]) + Val(y[..j]) * d
    {
      MulBound(b[j], d);
      ghost var acc, q := r[o..o + j], c;
      c := c + ((r[o + j] as int) + d * b[j]);
      CarryAppend(acc, q, c, Val(was[..j]) + Val(y[..j]) * d);
      PrefixRow(was, y, j, d);
      r[o + j] := c % BASE;
      c := c / BASE;
      j := j + 1;
      assert r[o..o + j] == acc + [r[o + j - 1]];
    }
    assert was[..lb] == was && y[..lb] == y;
    return c;
  }

  lemma {:induction false} PrefixRow(s: seq<OneDig>, y: seq<OneDig>, i: nat, d: int)
    requires i < |s| && i < |y|
    ensures Val(s[..i + 1]) + Val(y[..i + 1]) * d == Val(s[..i]) + Val(y[..i]) * d + (s[i] + d * y[i]) * P(i)
  {
    ValPrefix(s, i);
    PrefixProduct(y, i, d);
    Distribute(s[i], d * y[i], P(i));
  }

  lemma {:induction false} RowTotal(low: seq<OneDig>, row: seq<OneDig>, p: OneDig, was: seq<OneDig>, t: int)
    requires Val(row) + p * P(|row|) == Val(was) + t
    ensures Val(low + (row + [p])) == Val(low + was) + t * P(|low|)
  {
    ValSnoc(row, p);
    ValConcat(low, row + [p]);
    ValConcat(low, was);
    Distribute(Val(was), t, P(|low|));
  }

  /** `digit_add`: adds strings, the longer first; the result may overwrite either.  Returns the carry. */
  method Add(d1: array<OneDig>, l1: nat, d2: array<OneDig>, l2: nat, r: array<OneDig>) returns (carry: OneDig)
    requires l2 <= l1 <= d1.Length && l2 <= d2.Length && l1 <= r.Length
    modifies r
    ensures Val(r[..l1]) + carry * P(l1) == old(Val(d1[..l1])) + old(Val(d2[..l2]))
    ensures carry <= 1
    ensures r[l1..] == old(r[l1..])
  {
    ValEmpty();
    hide Val, P;
    ghost var x, y := d1[..l1], Val(d2[..l2]);
    var c := AddCommon(d1, d2, l2, r);
    assert x[..l2] == old(d1[..l2]);
    var i;
    c, i := AddCarry(d1, l1, r, l2, c, x, y);
    if c == 0 {
      CopyRest(d1, r, i, l1, x, y);
    } else {
      assert x[..l1] == x;
    }
    return c;
  }

  /** The first loop of `digit_add`, over the digits both strings have. */
  method AddCommon(d1: array<OneDig>, d2: array<OneDig>, l: nat, r: array<OneDig>) returns (c: TwoDig)
    requires l <= d1.Length && l <= d2.Length && l <= r.Length
    modifies r
    ensures c <= 1
    ensures Val(r[..l]) + c * P(l) == old(Val(d1[..l])) + old(Val(d2[..l]))
    ensures forall k :: l <= k < r.Length ==> r[k] == old(r[k])
  {
    ValEmpty();
    hide Val, P;
    ghost var x, y := d1[..l], d2[..l];
    c := 0;
    var i := 0;
    while i < l
      invariant i <= l
      invariant c <= 1
      invariant forall k :: i <= k < l ==> d1[k] == x[k] && d2[k] == y[k]
      invariant forall k :: i <= k < r.Length ==> r[k] == old(r[k])
      invariant Val(r[..i]) + c * P(i) == Val(x[..i]) + Val(y[..i])
    {
      ghost var acc, q := r[..i], c;
      c := c + ((d1[i] as int) + d2[i]);
      CarryAppend(acc, q, c, Val(x[..i]) + Val(y[..i]));
      PrefixSum(x, y, i);
      r[i] := c % BASE;
      c := c / BASE;
      i := i + 1;
      assert r[..i] == acc + [r[i - 1]];
    }
    assert x[..l] == x && y[..l] == y;
  }

  /** The second loop of `digit_add`: carries into the longer string x, stopping at the first zero carry. */
  method AddCarry(d1: array<OneDig>, l1: nat, r: array<OneDig>, l2: nat, c0: TwoDig, ghost x: seq<OneDig>, ghost y: nat)
    returns (c: TwoDig, i: nat)
    requires l2 <= l1 == |x| && l1 <= d1.Length && l1 <= r.Length && c0 <= 1
    requires forall k :: l2 <= k < l1 ==> d1[k] == x[k]
    requires Val(r[..l2]) + c0 * P(l2) == Val(x[..l2]) + y
    modifies r
    ensures i <= l1 && c <= 1 && (c == 0 || i == l1)
    ensures forall k :: i <= k < l1 ==> d1[k] == x[k]
    ensures forall k :: i <= k < r.Length ==> r[k] == old(r[k])
    ensures Val(r[..i]) + c * P(i) == Val(x[..i]) + y
  {
    ValEmpty();
    hide Val, P;
    c, i := c0, l2;
    while i < l1
      invariant l2 <= i <= l1
      invariant c <= 1
      invariant forall k :: i <= k < l1 ==> d1[k] == x[k]
      invariant forall k :: i <= k < r.Length ==> r[k] == old(r[k])
      invariant Val(r[..i]) + c * P(i) == Val(x[..i]) + y
    {
      ghost var acc, q := r[..i], c;
      c := c + d1[i];
      CarryAppend(acc, q, c, Val(x[..i]) + y);
      ValPrefix(x, i);
      r[i] := c % BASE;
      c := c / BASE;
      i := i + 1;
      assert r[..i] == acc + [r[i - 1]];
      if c == 0 {
        break;
      }
    }
  }

  /** Once no carry or borrow is left, the rest of the longer string is the rest of the result. */
  method CopyRest(d1: array<OneDig>, r: array<OneDig>, i: nat, l1: nat, ghost x: seq<OneDig>, ghost y: int)
    requires i <= l1 == |x| && l1 <= d1.Length && l1 <= r.Length
    requires forall k :: i <= k < l1 ==> d1[k] == x[k]
    requires Val(r[..i]) == Val(x[..i]) + y
    modifies r
    ensures Val(r[..l1]) == Val(x) + y
    ensures r[l1..] == old(r[l1..])
  {
    ValEmpty();
    hide Val, P;
    ghost var low := r[..i];
    if r != d1 {
      CopyTail(d1, r, i, l1);
    }
    assert r[..l1] == low + x[i..];
    ValConcat(low, x[i..]);
    ValSplit(x, i);
  }

  /** The `copy:` tail shared by `digit_add` and `digit_sub`. */
  method CopyTail(d: array<OneDig>, r: array<OneDig>, from: nat, l: nat)
    requires from <= l <= d.Length && l <= r.Length && r != d
    modifies r
    ensures r[..from] == old(r[..from])
    ensures r[from..l] == d[from..l]
    ensures r[l..] == old(r[l..])
  {
    var i := from;
    while i < l
      invariant from <= i <= l
      invariant forall k :: 0 <= k < from || i <= k < r.Length ==> r[k] == old(r[k])
      invariant forall k :: from <= k < i ==> r[k] == d[k]
    {
      r[i] := d[i];
      i := i + 1;
    }
  }

  /** `digit_sub`: subtracts the smaller string from the larger; the result may overwrite either. */
  method Sub(d1: array<OneDig>, l1: nat, d2: array<OneDig>, l2: nat, r: array<OneDig>)
    requires l2 <= l1 <= d1.Length && l2 <= d2.Length && l1 <= r.Length
    requires Val(d1[..l1]) >= Val(d2[..l2])
    modifies r
    ensures Val(r[..l1]) == old(Val(d1[..l1])) - old(Val(d2[..l2]))
    ensures r[l1..] == old(r[l1..])
  {
    ValEmpty();
    hide Val, P;
    ghost var x, y := d1[..l1], Val(d2[..l2]);
    var c := SubCommon(d1, d2, l2, r);
    assert x[..l2] == old(d1[..l2]);
    var i;
    c, i := SubBorrow(d1, l1, r, l2, c, x, y);
    NoBorrowLeft(r[..i], c, x, y);
    CopyRest(d1, r, i, l1, x, -(y as int));
  }

  /** A difference that is not below zero leaves no borrow. */
  lemma {:induction false} NoBorrowLeft(low: seq<OneDig>, c: int, x: seq<OneDig>, y: int)
    requires |low| <= |x| && 0 <= c <= 1 && (c == 1 || |low| == |x|) && y <= Val(x)
    requires Val(low) + (c - 1) * P(|low|) == Val(x[..|low|]) - y
    ensures c == 1
  {
    ValBound(low);
    assert |low| == |x| ==> x[..|low|] == x;
  }

  /** The first loop of `digit_sub`; c is 1 while no borrow is pending. */
  method SubCommon(d1: array<OneDig>, d2: array<OneDig>, l: nat, r: array<OneDig>) returns (c: TwoDig)
    requires l <= d1.Length && l <= d2.Length && l <= r.Length
    modifies r
    ensures c <= 1
    ensures Val(r[..l]) + (c - 1) * P(l) == old(Val(d1[..l])) - old(Val(d2[..l]))
    ensures forall k :: l <= k < r.Length ==> r[k] == old(r[k])
  {
    ValEmpty();
    hide Val, P;
    ghost var x, y := d1[..l], d2[..l];
    c := 1;
    var i := 0;
    while i < l
      invariant i <= l
      invariant c <= 1
      invariant forall k :: i <= k < l ==> d1[k] == x[k] && d2[k] == y[k]
      invariant forall k :: i <= k < r.Length ==> r[k] == old(r[k])
      invariant Val(r[..i]) + (c - 1) * P(i) == Val(x[..i]) - Val(y[..i])
    {
      ghost var acc, q := r[..i], c;
      c := c + ((d1[i] as int) + (BASE - 1) - d2[i]);
      BorrowAppend(acc, q, c, Val(x[..i]) - Val(y[..i]));
      PrefixSum(x, y, i);
      r[i] := c % BASE;
      c := c / BASE;
      i := i + 1;
      assert r[..i] == acc + [r[i - 1]];
    }
    assert x[..l] == x && y[..l] == y;
  }

  /** The second loop of `digit_sub`: borrows from the longer string x until the borrow is paid. */
  method SubBorrow(d1: array<OneDig>, l1: nat, r: array<OneDig>, l2: nat, c0: TwoDig, ghost x: seq<OneDig>, ghost y: nat)
    returns (c: TwoDig, i: nat)
    requires l2 <= l1 == |x| && l1 <= d1.Length && l1 <= r.Length && c0 <= 1
    requires forall k :: l2 <= k < l1 ==> d1[k] == x[k]
    requires Val(r[..l2]) + (c0 - 1) * P(l2) == Val(x[..l2]) - y
    modifies r
    ensures i <= l1 && c <= 1 && (c == 1 || i == l1)
    ensures forall k :: i <= k < l1 ==> d1[k] == x[k]
    ensures forall k :: i <= k < r.Length ==> r[k] == old(r[k])
    ensures Val(r[..i]) + (c - 1) * P(i) == Val(x[..i]) - y
  {
    ValEmpty();
    hide Val, P;
    c, i := c0, l2;
    while i < l1 && c == 0
      invariant l2 <= i <= l1
      invariant c <= 1
      invariant forall k :: i <= k < l1 ==> d1[k] == x[k]
      invariant forall k :: i <= k < r.Length ==> r[k] == old(r[k])
      invariant Val(r[..i]) + (c - 1) * P(i) == Val(x[..i]) - y
    {
      ghost var acc := r[..i];
      c := (d1[i] as int) + (BASE - 1);
      BorrowAppend(acc, 0, c, Val(x[..i]) - y);
      ValPrefix(x, i);
      r[i] := c % BASE;
      c := c / BASE;
      i := i + 1;
      assert r[..i] == acc + [r[i - 1]];
    }
  }

  /** `digit_cmp`: compares strings of one length, the second at offset o, from the top digit down. */
  method Compare(a: array<OneDig>, b: array<OneDig>, o: nat, n: nat) returns (cmp: int)
    requires n <= a.Length && o + n <= b.Length
    ensures cmp == Sign(Val(a[..n]) - Val(b[o..o + n]))
  {
    hide Val, P;
    ghost var s, t := a[..n], b[o..o + n];
    var i: nat := n;
    while i > 0
      invariant i <= n
      invariant s[i..] == t[i..]
    {
      i := i - 1;
      if a[i] < b[o + i] {
        CompareAt(s, t, i);
        return -1;
      } else if a[i] > b[o + i] {
        CompareAt(t, s, i);
        return 1;
      }
      assert s[i..] == [s[i]] + s[i + 1..] && t[i..] == [t[i]] + t[i + 1..];
    }
    assert s[0..] == s && t[0..] == t;
    return 0;
  }

  function Sign(x: int): int {
    if x < 0 then -1 else if x > 0 then 1 else 0
  }

  /** The topmost differing digit decides the order of two strings of one length. */
  lemma {:induction false} CompareAt(s: seq<OneDig>, t: seq<OneDig>, i: nat)
    requires |s| == |t| && i < |s| && s[i + 1..] == t[i + 1..] && s[i] < t[i]
    ensures Val(s) < Val(t)
  {
    ValSplit(s, i + 1);
    ValSplit(t, i + 1);
    ValPrefix(s, i);
    ValPrefix(t, i);
    ValBound(s[..i]);
    MulMonotone(s[i] + 1, t[i], P(i));
    Distribute(s[i], 1, P(i));
  }

  /** `digit_div` by one digit: transforms the string into the quotient, returns the remainder. */
  method DivSingle(b: array<OneDig>, l: nat, d: OneDig) returns (rem: OneDig)
    requires l <= b.Length && d != 0
    modifies b
    ensures old(Val(b[..l])) == Val(b[..l]) * d + rem && rem < d
    ensures b[l..] == old(b[l..])
  {
    ValEmpty();
    hide Val, P;
    ghost var was := b[..l];
    var r: OneDig := 0;
    var i: nat := l;
    assert was[l..] == b[l..l] == [];
    while i > 0
      invariant i <= l
      invariant r < d
      invariant forall k :: 0 <= k < i ==> b[k] == was[k]
      invariant forall k :: l <= k < b.Length ==> b[k] == old(b[k])
      invariant Val(was[i..]) == Val(b[i..l]) * d + r
    {
      i := i - 1;
      ghost var q := b[i + 1..l];
      var x, y := DivDigit(r, b[i], d);
      DivDown(was, i, q, r, d, x, y);
      b[i], r := x, y;
      assert b[i..l] == [x] + q;
    }
    assert b[0..l] == b[..l] && was[0..] == was;
    return r;
  }

  /** Divides the remainder so far and the digit brought down; the quotient is a single digit. */
  method DivDigit(r: OneDig, x: OneDig, d: OneDig) returns (q: OneDig, rem: OneDig)
    requires r < d
    ensures r * BASE + x == q * d + rem && rem < d
  {
    var t: TwoDig := r * BASE + x;
    DivideBelow(t, d, BASE);
    return t / d, t % d;
  }

  /** One step of the division by a digit, from the partial quotient q of the digits above i. */
  lemma {:induction false} DivDown(s: seq<OneDig>, i: nat, q: seq<OneDig>, r: int, d: OneDig, x: OneDig, y: OneDig)
    requires i < |s| && Val(s[i + 1..]) == Val(q) * d + r && r * BASE + s[i] == x * d + y
    ensures Val(s[i..]) == Val([x] + q) * d + y
  {
    ValSuffix(s, i);
    assert ([x] + q)[1..] == q;
    Distribute(x, BASE * Val(q), d);
    MulAssoc(BASE, Val(q), d);
  }
}
