/**
 The integer square root of libs/DH/dh.cpp (`sqrt`): Newton's iteration on big
 integers, and the inputs on which one of its divisions traps.
 */
module Newton {
  import opened Arithmetic
  import opened Digits
  import opened BigNumber

  /** The largest number whose square is at most x. */
  predicate IsRoot(r: nat, x: nat) {
    r * r <= x < (r + 1) * (r + 1)
  }

  function Next(x: nat, a: nat): nat
    requires a > 0
  {
    (a + x / a) / 2
  }

  /** An iterate never falls below the root, and falls strictly while it is above it. */
  lemma NewtonStep(x: nat, a: nat)
    requires a > 0
    ensures x < (Next(x, a) + 1) * (Next(x, a) + 1)
    ensures x < a * a ==> Next(x, a) < a
  {
    MeanStep(x, a, x / a, x % a, Next(x, a));
  }

  lemma MeanStep(x: nat, a: nat, q: nat, r: nat, b: nat)
    requires x == q * a + r && r < a && b == (a + q) / 2
    ensures x < (b + 1) * (b + 1)
    ensures x < a * a ==> b < a
  {
    Distribute(q, 1, a);
    Squares(a, q + 1, b + 1);
    if x < a * a && q >= a {
      MulMonotone(a, q, a);
    }
  }

  /** The square of a mean is at least the product. */
  lemma Squares(a: nat, c: nat, m: nat)
    requires a + c <= 2 * m
    ensures a * c <= m * m
  {
    MulMonotone(c, 2 * m - a, a);
    SquareGap(m, a);
    NotNegative(m - a);
  }

  lemma NotNegative(d: int)
    ensures d * d >= 0
  {
  }

  lemma SquareGap(m: int, a: int)
    ensures (2 * m - a) * a == m * m - (m - a) * (m - a)
  {
    Distribute(2 * m, a, a);
    Distribute(m, a, m - a);
    Distribute(m, a, m);
    Distribute(m, a, a);
  }

  lemma RootUnique(r: nat, s: nat, x: nat)
    requires IsRoot(r, x) && IsRoot(s, x)
    ensures r == s
  {
    if r < s {
      MulMonotone(r + 1, s, r + 1);
      MulMonotone(r + 1, s, s);
    } else if s < r {
      MulMonotone(s + 1, r, s + 1);
      MulMonotone(s + 1, r, r);
    }
  }

  /** Whether the iteration at state (x0, x1) reaches a division that traps. */
  predicate IterationTraps(x: nat, x0: nat, x1: nat)
    decreases x0
  {
    0 < x1 < x0 && (DivisionTraps(x, x1) || IterationTraps(x, x1, Next(x, x1)))
  }

  predicate SqrtTraps(x: nat) {
    IterationTraps(x, x, (x + 1) / 2)
  }

  /** The least divisor that traps has two digits, the top one the largest. */
  const LEAST_TRAP: nat := (BASE - 1) * BASE

  lemma {:induction false} LeadingBound(y: nat)
    requires y >= BASE && LeadingDigit(y) == BASE - 1
    ensures y >= LEAST_TRAP
  {
    var q := y / BASE;
    assert y == BASE * q + y % BASE;
    if q >= BASE {
      LeadingBound(q);
    }
  }

  lemma MoreDigits(y: nat)
    requires y >= BASE
    ensures DigitLength(y) == 1 + DigitLength(y / BASE) && LeadingDigit(y) == LeadingDigit(y / BASE)
  {
  }

  lemma TrapDivisorBound(y: nat)
    requires TrapDivisor(y)
    ensures y >= LEAST_TRAP
  {
    if y >= BASE {
      LeadingBound(y);
    } else {
      OneDigit(y);
    }
  }

  lemma {:induction false} BelowNeverTraps(x: nat, x0: nat, x1: nat)
    requires x1 < LEAST_TRAP
    ensures !IterationTraps(x, x0, x1)
    decreases x0
  {
    hide TrapDivisor;
    if 0 < x1 < x0 {
      if TrapDivisor(x1) {
        TrapDivisorBound(x1);
      }
      if Next(x, x1) < x1 {
        BelowNeverTraps(x, x1, Next(x, x1));
      }
    }
  }

  /** The least argument on which `sqrt` fails: twice the least trapping divisor, less one (65 bits). */
  const LEAST_FAILURE: nat := 2 * LEAST_TRAP - 1

  /** No smaller argument makes the iteration trap. */
  lemma SmallNeverTraps(x: nat)
    requires x < LEAST_FAILURE
    ensures !SqrtTraps(x)
  {
    BelowNeverTraps(x, x, (x + 1) / 2);
  }

  /** And this one does, at the first division. */
  lemma LeastTraps()
    ensures SqrtTraps(LEAST_FAILURE)
  {
    var y, x := LEAST_TRAP, LEAST_FAILURE;
    assert (x + 1) / 2 == y && 0 < y < x;
    MoreDigits(y);
    assert y / BASE == BASE - 1;
    MoreDigits(x);
    MoreDigits(x / BASE);
    assert x / BASE / BASE == 1;
    assert DivisionTraps(x, y);
  }

  /** The division `x / x0` of the loop, on a copy of x. */
  method Quotient(x: DH, y: DH) returns (trap: bool, q: DH)
    requires x.Valid() && y.Valid() && y.Value() > 0 && x.Value() > 0
    ensures trap <==> DivisionTraps(x.Value(), y.Value())
    ensures fresh(q) && fresh(q.digit)
    ensures !trap ==> q.Valid() && q.Value() == x.Value() / y.Value()
  {
    hide Val, P;
    q := new DH.Copy(x);
    TrapsByValue(x.Ds(), y.Ds());
    var outcome := q.Div(y);
    trap := outcome == Trap;
  }

  /** The body of the loop, with x0 already set to x1. */
  method SqrtPass(x: DH, x0: DH, x1: DH) returns (trap: bool)
    requires x.Valid() && x0.Valid() && x1.Valid() && x.Value() > 0 && x0.Value() == x1.Value() > 0
    requires x1 != x && x1 != x0 && x1.digit != x.digit && x1.digit != x0.digit
    modifies x1, x1.digit
    ensures trap <==> DivisionTraps(x.Value(), x0.Value())
    ensures !trap ==> x1.Valid() && x1.Value() == Next(x.Value(), x0.Value())
    ensures x1.digit == old(x1.digit) || fresh(x1.digit)
  {
    hide Val, P, DH.Valid, DH.Value;
    var q;
    trap, q := Quotient(x, x0);
    if trap {
      return;
    }
    x1.Plus(q);
    var halved := x1.DivUlong(2);
  }

  /** What the loop of `sqrt` keeps about the numbers v, x0 and x1. */
  ghost predicate SqrtState(v: int, x0: int, x1: int) {
    && (v >= 0 ==> 0 <= x0 && 0 <= x1 && v < (x0 + 1) * (x0 + 1))
    && (v > 0 ==> 0 < x0 && x1 == Next(v, x0))
    && (v == 0 ==> x0 == 0 && x1 == 0)
    && (v < 0 ==> x0 == v && x1 >= v)
    && (v >= 0 ==> (SqrtTraps(v) <==> IterationTraps(v, x0, x1)))
  }

  lemma SqrtStart(v: int)
    ensures SqrtState(v, v, TDiv(v + 1, 2))
  {
    if v > 0 {
      QuotientUnique(v, v, 1, 0);
    }
  }

  lemma SqrtAdvance(v: int, x0: int, x1: int)
    requires SqrtState(v, x0, x1) && x1 < x0
    ensures 0 < v && 0 < x1
    ensures DivisionTraps(v, x1) ==> SqrtTraps(v)
    ensures !DivisionTraps(v, x1) ==> SqrtState(v, x1, Next(v, x1))
  {
    NewtonStep(v, x0);
    assert (0 + 1) * (0 + 1) == 1;
  }

  lemma SqrtEnd(v: int, x0: int, x1: int)
    requires SqrtState(v, x0, x1) && x1 >= x0
    ensures v >= 0 ==> x0 >= 0 && IsRoot(x0, v) && !SqrtTraps(v)
    ensures v < 0 ==> x0 == v
  {
    if v > 0 {
      NewtonStep(v, x0);
    }
  }

  /** `sqrt`; not ok means that a division trapped.  A negative argument comes back unchanged. */
  method Sqrt(x: DH) returns (ok: bool, r: DH)
    requires x.Valid()
    ensures ok ==> r.Valid()
    ensures ok && x.Value() >= 0 ==> r.Value() >= 0 && IsRoot(r.Value(), x.Value())
    ensures ok && x.Value() < 0 ==> r.Value() == x.Value()
    ensures !ok <==> x.Value() >= 0 && SqrtTraps(x.Value())
  {
    hide Val, P, DH.Valid, DH.Value;
    var x0 := new DH.Copy(x);
    var x1 := new DH.Copy(x);
    x1.PlusUlong(1);
    var halved := x1.DivUlong(2);
    SqrtStart(x.Value());
    ok, r := SqrtLoop(x, x0, x1);
  }

  /** The loop of `sqrt`. */
  method SqrtLoop(x: DH, a: DH, x1: DH) returns (ok: bool, x0: DH)
    requires x.Valid() && a.Valid() && x1.Valid() && SqrtState(x.Value(), a.Value(), x1.Value())
    requires x1 != x && x1 != a && x1.digit != x.digit && x1.digit != a.digit
    modifies x1, x1.digit
    ensures ok ==> x0.Valid()
    ensures ok && x.Value() >= 0 ==> x0.Value() >= 0 && IsRoot(x0.Value(), x.Value())
    ensures ok && x.Value() < 0 ==> x0.Value() == x.Value()
    ensures !ok <==> x.Value() >= 0 && SqrtTraps(x.Value())
  {
    hide Val, P, DH.Valid, DH.Value, SqrtState;
    ghost var v := x.Value();
    x0 := a;
    while true
      invariant x0 == a || (fresh(x0) && fresh(x0.digit))
      invariant x1.digit == old(x1.digit) || fresh(x1.digit)
      invariant x0 != x1 && x0.digit != x1.digit
      invariant x0.Valid() && x1.Valid() && SqrtState(v, x0.Value(), x1.Value())
      decreases x0.Value()
    {
      var cmp := x1.Compare(x0);
      if cmp >= 0 {
        break;
      }
      SqrtAdvance(v, x0.Value(), x1.Value());
      x0 := new DH.Copy(x1);
      var trap := SqrtPass(x, x0, x1);
      if trap {
        return false, x0;
      }
    }
    SqrtEnd(v, x0.Value(), x1.Value());
    ok := true;
  }
}
