/**
 Long division of digit strings (libs/DH/dh.cpp: `guess_q`,
 `multiply_and_subtract`, `add_back` and the `digit_div` that drives them).
 The divisor has two or more digits; the estimate of a quotient digit from the
 top three digits of the remainder is right or one too large, and one
 correction repairs it.
 */
module LongDivision {
  import opened Arithmetic
  import opened Digits
  import opened DigitLoops

  // ------------------------------------------------- what an estimate can tell

  /** A trial digit whose product with the divisor's top exceeds the remainder's top is too large. */
  lemma TrialTooLarge(R: int, Y: int, top: int, ytop: int, w: int, q: int)
    requires 0 < w && 0 <= q && R < (top + 1) * w && ytop * w <= Y
    requires q * ytop > top
    ensures R < q * Y
  {
    MulMonotone(top + 1, q * ytop, w);
    MulAssoc(q, ytop, w);
    assert q * (ytop * w) <= q * Y;
  }

  /** A trial digit whose product with the divisor's top two digits fits is at most one too large. */
  lemma TrialFits(R: int, Y: int, top: int, ytop: int, w: int, q: int)
    requires 0 < w && 0 <= q < BASE <= ytop && top * w <= R && ytop * w <= Y < (ytop + 1) * w
    requires q * ytop <= top
    ensures q * Y < R + Y
  {
    var low := Y - ytop * w;
    Distribute(ytop, 1, w);
    assert q * low <= q * w;
    MulMonotone(q + 1, ytop, w);
    Distribute(q, 1, w);
    assert q * low < ytop * w;
    MulMonotone(q * ytop, top, w);
    MulAssoc(q, ytop, w);
    assert q * Y == q * (ytop * w) + q * low;
  }

  /** With a normalised divisor the first trial digit exceeds any digit that is not too small by at most two. */
  lemma TrialWithinTwo(R: int, Y: int, top: int, y1: int, w: int, q0: int, q: int)
    requires 0 < w && 0 <= q < BASE && HALF <= y1 && top * w <= R && y1 * w <= Y <= (y1 + 1) * w
    requires q0 * y1 <= top && R < (q + 1) * Y
    ensures q0 <= q + 2
  {
    if q0 >= q + 3 {
      MulMonotone(q + 3, q0, y1);
      MulMonotone((q + 3) * y1, top, w);
      assert (q + 1) * Y <= (q + 1) * ((y1 + 1) * w);
      MulAssoc(q + 1, y1 + 1, w);
      assert (q + 3) * y1 - (q + 1) * (y1 + 1) == 2 * y1 - q - 1;
      MulMonotone((q + 1) * (y1 + 1), (q + 3) * y1, w);
      assert false;
    }
  }

  /** The digits of a string below its top k add less than one unit of the weight they are below. */
  lemma {:induction false} TopPart(s: seq<OneDig>, k: nat)
    requires k <= |s|
    ensures var t, w := Val(s[|s| - k..]), P(|s| - k); t * w <= Val(s) < (t + 1) * w
  {
    var t, w := Val(s[|s| - k..]), P(|s| - k);
    ValSplit(s, |s| - k);
    ValBound(s[..|s| - k]);
    Distribute(t, 1, w);
  }

  lemma ValOne(d: OneDig)
    ensures Val([d]) == d
  {
  }

  lemma {:induction false} ValTwo(s: seq<OneDig>)
    requires |s| == 2
    ensures Val(s) == s[0] + BASE * s[1]
  {
    assert Val(s[1..]) == s[1] + BASE * Val(s[1..][1..]);
  }

  lemma {:induction false} ValThree(s: seq<OneDig>)
    requires |s| == 3
    ensures Val(s) == s[0] + BASE * s[1] + BASE2 * s[2]
  {
    ValTwo(s[1..]);
  }

  /** The top digits of a remainder window and a divisor bound both from below and above. */
  lemma {:induction false} WindowFacts(win: seq<OneDig>, ys: seq<OneDig>, n: nat)
    requires 2 <= n == |ys| && |win| == n + 1 && ys[n - 1] != 0
    ensures Val(win[n - 2..]) * P(n - 2) <= Val(win) < (Val(win[n - 2..]) + 1) * P(n - 2)
    ensures Val(ys[n - 2..]) * P(n - 2) <= Val(ys) < (Val(ys[n - 2..]) + 1) * P(n - 2)
    ensures Val(ys[n - 2..]) == ys[n - 2] + BASE * ys[n - 1] >= BASE
    ensures (win[n - 1] + BASE * win[n]) * P(n - 1) <= Val(win) < (win[n - 1] + BASE * win[n] + 1) * P(n - 1)
    ensures ys[n - 1] * P(n - 1) <= Val(ys) < (ys[n - 1] + 1) * P(n - 1)
  {
    hide Val, P;
    TopPart(win, 3);
    TopPart(win, 2);
    TopPart(ys, 2);
    TopPart(ys, 1);
    ValTwo(ys[n - 2..]);
    ValTwo(win[n - 1..]);
    assert ys[n - 1..] == [ys[n - 1]];
    ValOne(ys[n - 1]);
  }

  // ----------------------------------------------------------------- estimate

  /** The first trial digit of `guess_q`, from the remainder's top two digits and the divisor's top digit. */
  method FirstTrial(r2: OneDig, r1: OneDig, y1: OneDig, ghost R: int, ghost Y: int, ghost w: int) returns (q: OneDig)
    requires 0 < w && y1 != 0 && R < BASE * Y && y1 * w <= Y < (y1 + 1) * w
    requires (r1 + BASE * r2) * w <= R < (r1 + BASE * r2 + 1) * w
    ensures R < (q + 1) * Y && q * y1 <= r1 + BASE * r2
  {
    TopNotAbove(r1, r2, y1, R, Y, w);
    if y1 == r2 {
      q := BASE - 1;
    } else {
      var t: TwoDig := r2 * BASE + r1;
      DivideBelow(t, y1, BASE);
      q := t / y1;
      Distribute(q, 1, y1);
      TrialTooLarge(R, Y, t, y1, w, q + 1);
    }
  }

  /** The top digit of a remainder below BASE times the divisor is at most the divisor's top digit. */
  lemma TopNotAbove(r1: OneDig, r2: OneDig, y1: OneDig, R: int, Y: int, w: int)
    requires 0 < w && R < BASE * Y && Y < (y1 + 1) * w && (r1 + BASE * r2) * w <= R
    ensures r2 <= y1
  {
    if r2 > y1 {
      MulMonotone(BASE * (y1 + 1), r1 + BASE * r2, w);
      MulAssoc(BASE, y1 + 1, w);
    }
  }

  /** The test in `guess_q`: the three-digit product of the trial with the divisor's top two digits. */
  method TrialProductFits(q: OneDig, y0: OneDig, y1: OneDig, r: array<OneDig>, o: nat) returns (fits: bool)
    requires o + 3 <= r.Length
    ensures fits <==> q * (y0 + BASE * y1) <= Val(r[o..o + 3])
  {
    hide Val, P;
    var t := new OneDig[3];
    MulBound(q, y0);
    MulBound(q, y1);
    var p: TwoDig := q * y0;
    t[0] := p % BASE;
    p := p / BASE;
    p := p + q * y1;
    t[1] := p % BASE;
    p := p / BASE;
    t[2] := p;
    ValThree(t[..3]);
    assert q * (y0 + BASE * y1) == q * y0 + BASE * (q * y1);
    var c := Compare(t, r, o, 3);
    return c <= 0;
  }

  /** The loop of `guess_q`: lowers the trial q0 until its product with the divisor's top two digits fits. */
  method LowerTrial(q0: OneDig, r: array<OneDig>, o: nat, y: array<OneDig>, l: nat,
                    ghost R: int, ghost Y: int, ghost top: int, ghost ytop: int, ghost w: int)
    returns (q: OneDig, ghost tries: nat)
    requires 2 <= l <= y.Length && o + 3 <= r.Length
    requires top == Val(r[o..o + 3]) && ytop == y[l - 2] + BASE * y[l - 1]
    requires 0 < w && 0 <= R < (top + 1) * w && ytop * w <= Y && R < (q0 + 1) * Y
    ensures R < (q + 1) * Y && q * ytop <= top && tries == q0 - q
  {
    hide Val, P;
    q := q0;
    tries := 0;
    while true
      invariant R < (q + 1) * Y
      invariant tries == q0 - q
      decreases q
    {
      var fits := TrialProductFits(q, y[l - 2], y[l - 1], r, o);
      if fits {
        break;
      }
      TrialTooLarge(R, Y, top, ytop, w, q);
      q := q - 1;
      tries := tries + 1;
    }
  }

  /**
   `guess_q`: the trial quotient digit for the remainder window r[o..o + l + 1]
   by the divisor y[..l].  It is the true digit or one more; `tries`, the number
   of times the trial is lowered, is at most two for a scaled divisor.
   */
  method GuessQ(r: array<OneDig>, o: nat, y: array<OneDig>, l: nat) returns (q: OneDig, ghost tries: nat)
    requires 2 <= l <= y.Length && o + l < r.Length && y[l - 1] != 0
    requires Val(r[o..o + l + 1]) < BASE * Val(y[..l])
    ensures q * Val(y[..l]) < Val(r[o..o + l + 1]) + Val(y[..l])
    ensures Val(r[o..o + l + 1]) < (q + 1) * Val(y[..l])
    ensures HALF <= y[l - 1] ==> tries <= 2
  {
    hide Val, P;
    ghost var win, ys := r[o..o + l + 1], y[..l];
    ghost var R, Y := Val(win), Val(ys);
    WindowFacts(win, ys, l);
    assert win[l - 2..] == r[o + l - 2..o + l - 2 + 3];
    ghost var top, ytop := Val(win[l - 2..]), Val(ys[l - 2..]);
    var q0 := FirstTrial(r[o + l], r[o + l - 1], y[l - 1], R, Y, P(l - 1));
    q, tries := LowerTrial(q0, r, o + l - 2, y, l, R, Y, top, ytop, P(l - 2));
    TrialFits(R, Y, top, ytop, P(l - 2), q);
    if HALF <= y[l - 1] {
      TrialWithinTwo(R, Y, win[l - 1] + BASE * win[l], y[l - 1], P(l - 1), q0, q);
    }
  }

  // --------------------------------------------------------------- correction

  /** The arithmetic of one step of `multiply_and_subtract`: p carries the product, h the borrow. */
  lemma BorrowedDigit(p: int, h: int, x: int)
    requires x == h - BASE + p % BASE - p
    ensures x % BASE == h % BASE && x / BASE == h / BASE - 1 - p / BASE
  {
    QuotientOf(x, h / BASE - 1 - p / BASE, h % BASE);
  }

  lemma QuotientOf(x: int, k: int, r: int)
    requires x == BASE * k + r && 0 <= r < BASE
    ensures x % BASE == r && x / BASE == k
  {
  }

  lemma {:induction false} SubtractStep(acc: seq<OneDig>, was: seq<OneDig>, y: seq<OneDig>, i: nat, q: OneDig, p: int, h: int)
    requires i == |acc| < |was| && i < |y| && 0 <= p && 0 <= h <= 1
    requires Val(acc) + (h - 1 - p) * P(i) == Val(was[..i]) - Val(y[..i]) * q
    ensures var p1 := p + q * y[i]; var h1 := h + was[i] + (BASE - 1) - p1 % BASE;
      Val(acc + [h1 % BASE]) + (h1 / BASE - 1 - p1 / BASE) * P(i + 1) == Val(was[..i + 1]) - Val(y[..i + 1]) * q
  {
    hide Val, P;
    var p1 := p + q * y[i];
    var h1 := h + was[i] + (BASE - 1) - p1 % BASE;
    var x := (h - 1 - p) + was[i] - q * y[i];
    BorrowedDigit(p1, h1, x);
    CarryAppend(acc, h - 1 - p, x, Val(was[..i]) - Val(y[..i]) * q);
    ValPrefix(was, i);
    PrefixProduct(y, i, q);
    Distribute(was[i], q * y[i], P(i));
  }

  /** `multiply_and_subtract`: takes q times the divisor from the window; the result is 0 on a borrow. */
  method MultiplyAndSubtract(r: array<OneDig>, o: nat, y: array<OneDig>, l: nat, q: OneDig) returns (ok: OneDig)
    requires l <= y.Length && o + l < r.Length && r != y
    modifies r
    ensures ok <= 1
    ensures Val(r[o..o + l + 1]) + (ok - 1) * P(l + 1) == old(Val(r[o..o + l + 1])) - Val(y[..l]) * q
    ensures ok == 0 <==> old(Val(r[o..o + l + 1])) < Val(y[..l]) * q
    ensures r[..o] == old(r[..o]) && r[o + l + 1..] == old(r[o + l + 1..])
  {
    hide Val, P;
    ghost var was, t := r[o..o + l + 1], Val(y[..l]) * q;
    var p, h0 := SubtractLoop(r, o, y, l, q);
    assert was[..l] == old(r[o..o + l]);
    ghost var acc := r[o..o + l];
    var h: TwoDig := h0 + r[o + l] + (BASE - 1) - p;
    r[o + l] := h % BASE;
    assert r[o..o + l + 1] == acc + [h % BASE];
    LastBorrow(acc, was, t, p, h0, h);
    ok := h / BASE;
  }

  /** The loop of `multiply_and_subtract`; returns the pending product p and the borrow state h. */
  method SubtractLoop(r: array<OneDig>, o: nat, y: array<OneDig>, l: nat, q: OneDig) returns (p: TwoDig, h: TwoDig)
    requires l <= y.Length && o + l < r.Length && r != y
    modifies r
    ensures p < BASE && h <= 1
    ensures Val(r[o..o + l]) + (h - 1 - p) * P(l) == old(Val(r[o..o + l])) - Val(y[..l]) * q
    ensures forall k :: 0 <= k < o || o + l <= k < r.Length ==> r[k] == old(r[k])
  {
    ValEmpty();
    hide Val, P;
    ghost var was, ys := r[o..o + l], y[..l];
    p, h := 0, 1;
    var i := 0;
    assert r[o..o + 0] == was[..0] == ys[..0] == [];
    while i < l
      invariant i <= l && p < BASE && h <= 1
      invariant forall k :: 0 <= k < o || o + i <= k < r.Length ==> r[k] == old(r[k])
      invariant Val(r[o..o + i]) + (h - 1 - p) * P(i) == Val(was[..i]) - Val(ys[..i]) * q
    {
      ghost var acc := r[o..o + i];
      SubtractStep(acc, was, ys, i, q, p, h);
      var d;
      d, p, h := SubtractDigit(r[o + i], y[i], q, p, h);
      r[o + i] := d;
      i := i + 1;
      assert r[o..o + i] == acc + [r[o + i - 1]];
    }
    assert was[..l] == was && ys[..l] == ys;
  }

  /** The arithmetic of one digit: nothing leaves 64 bits. */
  method SubtractDigit(w: OneDig, y: OneDig, q: OneDig, p: TwoDig, h: TwoDig) returns (d: OneDig, p1: TwoDig, h1: TwoDig)
    requires p < BASE && h <= 1
    ensures p1 < BASE && h1 <= 1
    ensures var t := p + q * y; var u := h + w + (BASE - 1) - t % BASE; d == u % BASE && p1 == t / BASE && h1 == u / BASE
  {
    MulBound(q, y);
    var t: TwoDig := p + q * y;
    var u: TwoDig := h + w + (BASE - 1) - t % BASE;
    d, p1, h1 := u % BASE, t / BASE, u / BASE;
  }

  /** The last step of `multiply_and_subtract`, at the window's top digit. */
  lemma {:induction false} LastBorrow(acc: seq<OneDig>, was: seq<OneDig>, t: int, p: int, h0: int, h: int)
    requires |was| == |acc| + 1 && 0 <= p < BASE && 0 <= h0 <= 1
    requires Val(acc) + (h0 - 1 - p) * P(|acc|) == Val(was[..|acc|]) - t
    requires h == h0 + was[|acc|] + (BASE - 1) - p
    ensures 0 <= h / BASE <= 1
    ensures Val(acc + [h % BASE]) + (h / BASE - 1) * P(|was|) == Val(was) - t
    ensures h / BASE == 0 <==> Val(was) < t
  {
    var n := |acc|;
    CarryAppend(acc, h0 - 1 - p, h - BASE, Val(was[..n]) - t);
    assert (h - BASE) % BASE == h % BASE && (h - BASE) / BASE == h / BASE - 1;
    ValPrefix(was, n);
    assert was[..n + 1] == was;
    ValBound(acc + [h % BASE]);
  }

  /** `add_back`: adds the divisor to the window's low digits and clears its top digit. */
  method AddBack(r: array<OneDig>, o: nat, y: array<OneDig>, l: nat) returns (ghost c: int)
    requires l <= y.Length && o + l < r.Length && r != y
    modifies r
    ensures 0 <= c <= 1 && Val(r[o..o + l]) + c * P(l) == old(Val(r[o..o + l])) + Val(y[..l])
    ensures r[o + l] == 0
    ensures r[..o] == old(r[..o]) && r[o + l + 1..] == old(r[o + l + 1..])
  {
    ValEmpty();
    hide Val, P;
    ghost var was, ys := r[o..o + l], y[..l];
    var h: TwoDig := 0;
    var i := 0;
    assert r[o..o + 0] == was[..0] == ys[..0] == [];
    while i < l
      invariant i <= l && h <= 1
      invariant forall k :: 0 <= k < o || o + i <= k < r.Length ==> r[k] == old(r[k])
      invariant Val(r[o..o + i]) + h * P(i) == Val(was[..i]) + Val(ys[..i])
    {
      ghost var acc, q := r[o..o + i], h;
      h := h + r[o + i];
      h := h + y[i];
      CarryAppend(acc, q, h, Val(was[..i]) + Val(ys[..i]));
      PrefixSum(was, ys, i);
      r[o + i] := h % BASE;
      h := h / BASE;
      i := i + 1;
      assert r[o..o + i] == acc + [r[o + i - 1]];
    }
    assert was[..l] == was && ys[..l] == ys;
    ghost var sum := r[o..o + l];
    r[o + l] := 0;
    assert r[o..o + l] == sum;
    c := h;
  }

  // ------------------------------------------------------------ long division

  /** A window whose value is below the divisor has a zero top digit. */
  lemma {:induction false} SmallWindow(win: seq<OneDig>, l: nat)
    requires |win| == l + 1 && Val(win) < P(l)
    ensures win[l] == 0 && Val(win[..l]) == Val(win)
  {
    TopDigit(win);
    ValLeadingZero(win, l);
  }

  /** Adding the divisor back to a window that went below zero yields the true difference D. */
  lemma {:induction false} Corrected(win: seq<OneDig>, low: seq<OneDig>, c: int, D: int, Y: int)
    requires |win| == |low| + 1 && 0 <= D < Y < P(|low|)
    requires Val(win) - P(|win|) == D - Y
    requires Val(low) + c * P(|low|) == Val(win[..|low|]) + Y
    ensures Val(low) == D
  {
    var l := |low|;
    var w := P(l);
    ValPrefix(win, l);
    assert win[..l + 1] == win;
    ValBound(low);
    CarryLost(win[l], c, w, Val(low), Val(win[..l]), D, Y);
  }

  lemma CarryLost(t: int, c: int, w: int, low: int, rest: int, D: int, Y: int)
    requires 0 <= D < Y < w && 0 <= low < w
    requires rest + t * w - BASE * w == D - Y && low + c * w == rest + Y
    ensures low == D
  {
    var k := BASE - t - c;
    Distribute(BASE, t, w);
    Distribute(BASE - t, c, w);
    assert low - D == k * w;
    if k >= 1 {
      MulMonotone(1, k, w);
    } else if k <= -1 {
      MulMonotone(k, -1, w);
    }
  }

  lemma Neighbours(q: int, Y: int)
    ensures q * Y == Y * q && (q + 1) * Y == Y * q + Y && Y * (q - 1) == Y * q - Y
  {
  }

  lemma MulRotate(a: int, b: int, c: int)
    ensures (a * b) * c == (b * c) * a
  {
  }

  /** One step of the division: the window loses the true quotient digit times the divisor. */
  method DivideStep(r: array<OneDig>, o: nat, y: array<OneDig>, l: nat) returns (qh: OneDig)
    requires 2 <= l <= y.Length && o + l < r.Length && y[l - 1] != 0 && r != y
    requires Val(r[o..o + l + 1]) < BASE * Val(y[..l])
    modifies r
    ensures Val(r[o..o + l]) == old(Val(r[o..o + l + 1])) - Val(y[..l]) * qh
    ensures Val(r[o..o + l]) < Val(y[..l])
    ensures r[o + l] == 0
    ensures r[..o] == old(r[..o]) && r[o + l + 1..] == old(r[o + l + 1..])
  {
    hide Val, P;
    ghost var R, Y := Val(r[o..o + l + 1]), Val(y[..l]);
    ValBound(y[..l]);
    ghost var tries;
    qh, tries := GuessQ(r, o, y, l);
    var ok := MultiplyAndSubtract(r, o, y, l, qh);
    ghost var win := r[o..o + l + 1];
    assert win[..l] == r[o..o + l];
    Neighbours(qh, Y);
    if ok == 0 {
      qh := qh - 1;
      ghost var c := AddBack(r, o, y, l);
      Corrected(win, r[o..o + l], c, R - Y * qh, Y);
    } else {
      SmallWindow(win, l);
    }
  }

  /** Bringing down the digit below a remainder smaller than the divisor. */
  lemma {:induction false} BringDown(rem: seq<OneDig>, d: OneDig, Y: int)
    requires Val(rem) < Y
    ensures Val([d] + rem) < BASE * Y
  {
    assert ([d] + rem)[1..] == rem;
  }

  /** The account of the division after one more digit: low is below the window. */
  lemma {:induction false} DivideAccount(low: seq<OneDig>, win: seq<OneDig>, rem: seq<OneDig>, d: OneDig, Y: int)
    requires Val(rem) == Val(win) - Y * d
    ensures Val(low + win) == Val(low + rem) + (d * P(|low|)) * Y
  {
    hide Val, P;
    ValConcat(low, win);
    ValConcat(low, rem);
    Distribute(Val(win), Y * d, P(|low|));
    MulRotate(Y, d, P(|low|));
  }

  lemma QuotientGrows(q: seq<OneDig>, d: OneDig, i: nat)
    ensures Val([d] + q) * P(i) == d * P(i) + Val(q) * P(i + 1)
  {
    assert ([d] + q)[1..] == q;
    var v, w := Val(q), P(i);
    calc {
      Val([d] + q) * w;
      (d + BASE * v) * w;
      { Distribute(d, BASE * v, w); }
      d * w + (BASE * v) * w;
      { MulRotate(v, w, BASE); MulRotate(BASE, v, w); }
      d * w + v * P(i + 1);
    }
  }

  lemma QuotientAccount(T: int, rest: int, rest1: int, q: seq<OneDig>, d: OneDig, i: nat, Y: int)
    requires T == (Val(q) * P(i + 1)) * Y + rest && rest == rest1 + (d * P(i)) * Y
    ensures T == (Val([d] + q) * P(i)) * Y + rest1
  {
    hide Val, P;
    QuotientGrows(q, d, i);
    Distribute(d * P(i), Val(q) * P(i + 1), Y);
  }

  /**
   `digit_div` by a string: divides r[..ql + l] by y[..l].  The remainder is left
   in r[..l]; the quotient digits go to q unless it is null.
   */
  method Divide(r: array<OneDig>, y: array<OneDig>, l: nat, q: array?<OneDig>, ql: nat) returns (ghost qs: seq<OneDig>)
    requires 2 <= l <= y.Length && ql + l <= r.Length && y[l - 1] != 0
    requires r != y && q != r && q != y && (q != null ==> ql <= q.Length)
    requires Val(r[ql..ql + l]) < Val(y[..l])
    modifies r, if q != null then {q} else {}
    ensures |qs| == ql && (q != null ==> q[..ql] == qs)
    ensures old(Val(r[..ql + l])) == Val(qs) * Val(y[..l]) + Val(r[..l])
    ensures Val(r[..l]) < Val(y[..l])
    ensures q != null ==> q[ql..] == old(q[ql..])
    ensures r[ql + l..] == old(r[ql + l..])
  {
    ValEmpty();
    hide Val, P;
    ghost var T, Y := Val(r[..ql + l]), Val(y[..l]);
    qs := [];
    var i := ql;
    while i > 0
      invariant 0 <= i <= ql && |qs| == ql - i
      invariant Val(y[..l]) == Y && y[l - 1] != 0
      invariant q != null ==> q[i..ql] == qs && q[ql..] == old(q[ql..])
      invariant r[ql + l..] == old(r[ql + l..])
      invariant Val(r[i..i + l]) < Y
      invariant T == (Val(qs) * P(i)) * Y + Val(r[..i + l])
    {
      i := i - 1;
      ghost var low, win := r[..i], r[i..i + l + 1];
      assert win == [r[i]] + r[i + 1..i + 1 + l];
      assert r[..i + 1 + l] == low + win;
      BringDown(r[i + 1..i + 1 + l], r[i], Y);
      var qh := DivideStep(r, i, y, l);
      assert r[..i] == low;
      DivideAccount(low, win, r[i..i + l], qh, Y);
      assert r[..i + l] == low + r[i..i + l];
      QuotientAccount(T, Val(low + win), Val(r[..i + l]), qs, qh, i, Y);
      if q != null {
        q[i] := qh;
        assert q[i..ql] == [qh] + qs;
      }
      qs := [qh] + qs;
    }
  }
}
