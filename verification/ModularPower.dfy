/**
 Modular exponentiation (`DH::pow`, libs/DH/dh.cpp) by repeated squaring, proved
 to be the power followed by one remainder, and the commutation law that the
 Diffie-Hellman exchange needs.
 */
module ModularPower {
  import opened Arithmetic
  import opened Digits
  import opened BigNumber

  // ---------------------------------------------------------------- remainders

  lemma RemShift(x: nat, y: nat, k: int, m: int)
    requires 0 < m && x == y + k * m
    ensures x % m == y % m
  {
    var q := y / m;
    assert y == q * m + y % m;
    Distribute(q, k, m);
    QuotientUnique(x, m, q + k, y % m);
  }

  lemma TRemBySign(x: int, m: int)
    requires m != 0
    ensures x >= 0 ==> TRem(x, m) == x % Abs(m)
    ensures x <= 0 ==> TRem(x, m) == -((-x) % Abs(m))
  {
    if x == 0 {
      SmallRemainder(0, Abs(m));
    }
  }

  /** Numbers of one sign that differ by a multiple of m have one remainder. */
  lemma TRemCongruent(x: int, y: int, k: int, m: int)
    requires m != 0 && x == y + k * m && ((x >= 0 && y >= 0) || (x <= 0 && y <= 0))
    ensures TRem(x, m) == TRem(y, m)
  {
    hide TRem;
    TRemBySign(x, m);
    TRemBySign(y, m);
    NegateProduct(k, m);
    NegateProduct(k, -m);
    if x >= 0 && y >= 0 {
      RemShift(x, y, if m > 0 then k else -k, Abs(m));
    } else {
      RemShift(-x, -y, if m > 0 then -k else k, Abs(m));
    }
  }

  lemma SignOfProduct(u: int, v: int)
    ensures (u >= 0 && v >= 0) || (u <= 0 && v <= 0) ==> u * v >= 0
    ensures (u >= 0 && v <= 0) || (u <= 0 && v >= 0) ==> u * v <= 0
  {
    if u >= 0 {
      MulMonotone(0, u, Abs(v));
    } else {
      MulMonotone(u, 0, Abs(v));
    }
    NegateProduct(u, v);
  }

  lemma Regroup(q: int, m: int, v: int)
    ensures (q * m) * v == (q * v) * m
  {
    MulAssoc(q, m, v);
    MulAssoc(q, v, m);
    assert m * v == v * m;
  }

  /** A factor may be reduced before multiplying. */
  lemma TRemMul(u: int, v: int, m: int)
    requires m != 0
    ensures TRem(TRem(u, m) * v, m) == TRem(u * v, m)
  {
    hide TRem, TDiv;
    TruncatedDivision(u, m);
    var q, r := TDiv(u, m), TRem(u, m);
    Distribute(q * m, r, v);
    Regroup(q, m, v);
    SignOfProduct(u, v);
    SignOfProduct(r, v);
    TRemCongruent(u * v, r * v, q * v, m);
  }

  lemma TRemIdempotent(u: int, m: int)
    requires m != 0
    ensures TRem(TRem(u, m), m) == TRem(u, m)
  {
    TRemMul(u, 1, m);
  }

  /** The base of a power may be reduced first. */
  lemma {:induction false} TRemPower(a: int, k: nat, m: int)
    requires m != 0
    ensures TRem(Power(TRem(a, m), k), m) == TRem(Power(a, k), m)
  {
    if k > 0 {
      var r, p, s := TRem(a, m), Power(a, k - 1), Power(TRem(a, m), k - 1);
      calc {
        TRem(r * s, m);
        { TRemMul(a, s, m); }
        TRem(a * s, m);
        { TRemMul(s, a, m); assert s * a == a * s; }
        TRem(TRem(s, m) * a, m);
        { TRemPower(a, k - 1, m); }
        TRem(TRem(p, m) * a, m);
        { TRemMul(p, a, m); assert p * a == a * p; }
        TRem(a * p, m);
      }
    }
  }

  // -------------------------------------------------------------------- powers

  /** Squaring the base halves the exponent. */
  lemma {:induction false} PowerHalve(a: int, n: nat)
    ensures Power(a, n) == (if n % 2 == 1 then a else 1) * Power(a * a, n / 2)
    decreases n
  {
    if n >= 2 {
      PowerHalve(a, n - 2);
      var p := Power(a * a, n / 2 - 1);
      assert Power(a * a, n / 2) == (a * a) * p;
      assert Power(a, n) == a * (a * Power(a, n - 2));
      if n % 2 == 1 {
        assert a * (a * (a * p)) == a * ((a * a) * p);
      } else {
        MulAssoc(a, a, p);
      }
    }
  }

  // ----------------------------------------------------------------------- pow

  /** Whether a reduction traps: the wrapped sum of the scaling. */
  predicate RemTraps(x: int, m: int) {
    DivisionTraps(Abs(x), Abs(m))
  }

  /** Whether the loop of `pow` comes to a reduction that traps. */
  predicate PowTraps(a: int, b: nat, r: int, m: int)
    requires m != 0
    decreases b
  {
    var a1 := TRem(a, m);
    || RemTraps(a, m)
    || (b % 2 == 1 && RemTraps(r * a1, m))
    || (b / 2 > 0 && PowTraps(a1 * a1, b / 2, if b % 2 == 1 then TRem(r * a1, m) else r, m))
  }

  /** A modulus of one digit, or whose top digit is not the largest, never traps. */
  lemma {:induction false} SafeModulus(a: int, b: nat, r: int, m: int)
    requires m != 0 && !TrapDivisor(Abs(m))
    ensures !PowTraps(a, b, r, m)
    decreases b
  {
    hide TrapDivisor, TRem;
    if b / 2 > 0 {
      var a1 := TRem(a, m);
      SafeModulus(a1 * a1, b / 2, if b % 2 == 1 then TRem(r * a1, m) else r, m);
    }
  }

  // -------------------------------------------- when a largest top digit traps

  lemma {:induction false} LongerIsLonger(a: nat, b: nat)
    requires a <= b
    ensures DigitLength(a) <= DigitLength(b)
    decreases b
  {
    if a > 0 {
      DivideMonotone(a, b, BASE);
      LongerIsLonger(a / BASE, b / BASE);
    }
  }

  /** For a trapping modulus of three or more digits every reduction of a larger number traps. */
  lemma RemTrapsIs(v: nat, m: nat)
    requires TrapDivisor(m) && DigitLength(m) >= 3
    ensures RemTraps(v, m) <==> v > m
  {
    hide DigitLength;
    if v > m {
      LongerIsLonger(m, v);
    }
  }

  function Doubling(k: nat): (d: nat)
    ensures d >= 1
  {
    if k == 0 then 1 else Doubling(k - 1) + Doubling(k - 1)
  }

  /** Squaring x again and again comes to m. */
  ghost predicate SquaresTo(x: nat, m: nat) {
    exists k: nat :: Power(x, Doubling(k)) == m
  }

  lemma PowerStrict(x: nat, j: nat, k: nat)
    requires x >= 2 && j < k
    ensures 1 <= Power(x, j) < Power(x, k)
  {
    PowerPositive(x, j);
    MulMonotone(2, x, Power(x, j));
    assert Power(x, j + 1) == x * Power(x, j);
    PowerMonotone(x, j + 1, k);
  }

  /** The loop from any state: a and r are powers of x, and both are below m as long as nothing trapped. */
  lemma {:induction false} PowTrapsFrom(x: nat, k: nat, er: nat, b: nat, m: nat)
    requires x >= 2 && TrapDivisor(m) && DigitLength(m) >= 3 && !SquaresTo(x, m)
    requires er < Doubling(k) && Power(x, er) < m
    ensures 0 <= Doubling(k) * b
    ensures PowTraps(Power(x, Doubling(k)), b, Power(x, er), m)
       <==> Power(x, Doubling(k)) > m || (b > 0 && Power(x, er + Doubling(k) * b) > m)
    decreases b
  {
    hide RemTraps, PowTraps, TRem, Power, TrapDivisor, DigitLength, SquaresTo, Doubling;
    var ea := Doubling(k);
    var a, r, h := Power(x, ea), Power(x, er), b / 2;
    PowerPositive(x, ea);
    PowerPositive(x, er);
    MulMonotone(0, b, ea);
    TrapStep(a, b, r, m);
    RemTrapsIs(a, m);
    Misses(x, k, m);
    if a < m {
      Reduced(a, m);
      PowerAdd(x, er, ea);
      var v, e1 := Power(x, er + ea), if b % 2 == 1 then er + ea else er;
      PowerPositive(x, er + ea);
      RemTrapsIs(v, m);
      if b % 2 == 1 {
        Grows(x, er + ea, er, ea, b);
        if v < m {
          Reduced(v, m);
        }
      }
      if h == 0 {
        Single(ea, b);
      } else {
        PowerAdd(x, ea, ea);
        Grows(x, ea + ea, er, ea, b);
        if b % 2 == 1 && v == m {
          PowerStrict(x, er + ea, ea + ea);
          RemTrapsIs(a * a, m);
          TrapStep(a * a, h, TRem(v, m), m);
        } else if Power(x, e1) < m {
          Doubled(ea, er, b, h);
          DoublingNext(k);
          PowTrapsFrom(x, k + 1, e1, h, m);
        }
      }
    }
  }

  lemma DoublingNext(k: nat)
    ensures Doubling(k + 1) == Doubling(k) + Doubling(k)
  {
  }

  lemma Misses(x: nat, k: nat, m: nat)
    requires !SquaresTo(x, m)
    ensures Power(x, Doubling(k)) != m
  {
  }

  lemma Reduced(a: int, m: int)
    requires 0 <= a < m
    ensures TRem(a, m) == a
  {
    SmallRemainder(a, m);
  }

  lemma Single(ea: nat, b: nat)
    requires b / 2 == 0
    ensures b == 0 || (b == 1 && ea * b == ea)
  {
  }

  lemma Doubled(ea: nat, er: nat, b: nat, h: nat)
    requires h == b / 2
    ensures (if b % 2 == 1 then er + ea else er) + (ea + ea) * h == er + ea * b
  {
    Distribute(ea, ea, h);
    Distribute(h + h, if b % 2 == 1 then 1 else 0, ea);
    Distribute(h, h, ea);
  }

  lemma Grows(x: nat, small: nat, er: nat, ea: nat, b: nat)
    requires x >= 2 && 0 <= ea * b
    requires (small == er + ea && b >= 1) || (small == ea + ea && b >= 2)
    ensures Power(x, small) <= Power(x, er + ea * b)
  {
    MulMonotone(1, b, ea);
    if b >= 2 {
      MulMonotone(2, b, ea);
    }
    PowerMonotone(x, small, er + ea * b);
  }

  /** Once the base has become zero nothing traps. */
  lemma {:induction false} ZeroNeverTraps(b: nat, r: nat, m: nat)
    requires TrapDivisor(m) && DigitLength(m) >= 3
    ensures !PowTraps(0, b, r, m)
    decreases b
  {
    hide RemTraps, TrapDivisor, DigitLength, TRem, PowTraps;
    ThreeDigits(m);
    RemTrapsIs(0, m);
    Reduced(0, m);
    TrapStep(0, b, r, m);
    if b / 2 > 0 {
      ZeroNeverTraps(b / 2, if b % 2 == 1 then 0 else r, m);
    }
  }

  lemma {:induction false} DoublingGrows(k: nat, j: nat)
    requires k < j
    ensures Doubling(k) + Doubling(k) <= Doubling(j)
  {
    if k + 1 < j {
      DoublingGrows(k, j - 1);
    }
  }

  /** A modulus met by the squaring turns the base to zero, and nothing traps before or after. */
  lemma {:induction false} SquareNeverTraps(x: nat, k: nat, j: nat, er: nat, b: nat, m: nat)
    requires x >= 2 && TrapDivisor(m) && DigitLength(m) >= 3
    requires k <= j && Power(x, Doubling(j)) == m && er < Doubling(k)
    ensures !PowTraps(Power(x, Doubling(k)), b, Power(x, er), m)
    decreases b
  {
    hide RemTraps, PowTraps, TRem, Power, TrapDivisor, DigitLength, Doubling;
    var ea := Doubling(k);
    var a, r, h := Power(x, ea), Power(x, er), b / 2;
    PowerPositive(x, ea);
    PowerPositive(x, er);
    ThreeDigits(m);
    TrapStep(a, b, r, m);
    RemTrapsIs(a, m);
    if k == j {
      Vanishes(m);
      RemTrapsIs(0, m);
      Reduced(0, m);
      if h > 0 {
        ZeroNeverTraps(h, if b % 2 == 1 then 0 else r, m);
      }
    } else {
      DoublingGrows(k, j);
      PowerStrict(x, ea, Doubling(j));
      PowerStrict(x, er + ea, Doubling(j));
      Reduced(a, m);
      PowerAdd(x, er, ea);
      RemTrapsIs(r * a, m);
      Reduced(r * a, m);
      PowerAdd(x, ea, ea);
      DoublingNext(k);
      if h > 0 {
        SquareNeverTraps(x, k + 1, j, if b % 2 == 1 then er + ea else er, h, m);
      }
    }
  }

  lemma Vanishes(m: nat)
    requires m != 0
    ensures TRem(m, m) == 0
  {
    QuotientUnique(m, m, 1, 0);
  }

  /**
   For a modulus of three or more digits with the largest top digit, `pow` fails exactly when the power itself
   exceeds the modulus, unless x squared again and again comes to the modulus: then it never fails.  The base is
   reduced once even for exponent zero.
   */
  lemma PowTrapsExactly(x: nat, n: nat, m: nat)
    requires x >= 2 && TrapDivisor(m) && DigitLength(m) >= 3
    ensures PowTraps(x, n, 1, m) <==> Power(x, if n == 0 then 1 else n) > m && !SquaresTo(x, m)
  {
    hide PowTraps, TrapDivisor, SquaresTo, RemTraps;
    Powers(x, n);
    ThreeDigits(m);
    if SquaresTo(x, m) {
      var j := SquaredAt(x, m);
      SquareNeverTraps(x, 0, j, 0, n, m);
    } else {
      PowTrapsFrom(x, 0, 0, n, m);
      if n > 0 {
        PowerMonotone(x, 1, n);
      }
    }
  }

  lemma SquaredAt(x: nat, m: nat) returns (j: nat)
    requires SquaresTo(x, m)
    ensures Power(x, Doubling(j)) == m
  {
    j :| Power(x, Doubling(j)) == m;
  }

  lemma Powers(x: nat, n: nat)
    ensures Power(x, 0) == 1 && Power(x, 1) == x && 0 + 1 * n == n
  {
    assert Power(x, 1) == x * Power(x, 0);
  }

  lemma ThreeDigits(m: nat)
    requires DigitLength(m) >= 3
    ensures m >= BASE2
  {
    if m < BASE2 {
      TwoDigits(m);
    }
  }

  lemma TwoDigits(m: nat)
    requires m < BASE2
    ensures DigitLength(m) <= 2
  {
    assert m / BASE / BASE == 0;
    assert DigitLength(m / BASE) <= 1;
  }

  /** A number on which `pow` fails: the cube of the base by a three-digit modulus. */
  lemma PowCanTrap()
    ensures PowTraps(BASE, 3, 1, (BASE - 1) * BASE2)
  {
    hide PowTraps;
    var m := (BASE - 1) * BASE2;
    LeastOfThree(m);
    forall k: nat ensures Power(BASE, k) != m {
      Cubes();
      if k <= 2 {
        PowerMonotone(BASE, k, 2);
      } else {
        PowerMonotone(BASE, 3, k);
      }
    }
    Cubes();
    PowTrapsExactly(BASE, 3, m);
  }

  lemma Cubes()
    ensures Power(BASE, 2) == BASE2 && Power(BASE, 3) == BASE * BASE2
  {
    assert Power(BASE, 1) == BASE * Power(BASE, 0);
    assert Power(BASE, 2) == BASE * Power(BASE, 1);
    assert Power(BASE, 3) == BASE * Power(BASE, 2);
  }

  lemma LeastOfThree(m: nat)
    requires m == (BASE - 1) * BASE2
    ensures TrapDivisor(m) && DigitLength(m) == 3
  {
    assert m / BASE == (BASE - 1) * BASE && m / BASE / BASE == BASE - 1;
    assert (BASE - 1) / BASE == 0;
    assert DigitLength(BASE - 1) == 1 && DigitLength(m / BASE) == 2;
    assert LeadingDigit(m / BASE) == BASE - 1;
  }

  /** Bases zero and one never fail. */
  lemma {:induction false} TinyBaseNeverTraps(a: nat, b: nat, r: nat, m: nat)
    requires a <= 1 && r <= 1 && m > 1
    ensures !PowTraps(a, b, r, m)
    decreases b
  {
    var a1 := TRem(a, m);
    SmallRemainder(a, m);
    assert r * a <= 1;
    SmallRemainder(r * a, m);
    if b / 2 > 0 {
      TinyBaseNeverTraps(a * a, b / 2, if b % 2 == 1 then r * a else r, m);
    }
  }

  /**
   What `pow` returns: zero for modulus zero, and otherwise the remainder of the
   power, except that modulus one with exponent zero gives one.
   */
  function PowResult(x: int, n: nat, m: int): int {
    if m == 0 then 0
    else if n == 0 then 1
    else TRem(Power(x, n), m)
  }

  /** `pow` is the power reduced once, exactly unless the modulus is one and the exponent zero. */
  lemma PowResultIsRemainder(x: int, n: nat, m: int)
    requires m != 0
    ensures PowResult(x, n, m) == TRem(Power(x, n), m) <==> !(Abs(m) == 1 && n == 0)
  {
    if n == 0 {
      if Abs(m) > 1 {
        SmallRemainder(1, Abs(m));
      }
    }
  }

  /** The product that one pass of the loop keeps, modulo m. */
  lemma PowStep(r: int, a: int, b: nat, m: int)
    requires m != 0
    ensures var a1 := TRem(a, m); var r1 := if b % 2 == 1 then TRem(r * a1, m) else r;
      TRem(r1 * Power(a1 * a1, b / 2), m) == TRem(r * Power(a, b), m)
  {
    var a1 := TRem(a, m);
    var p, s := Power(a, b), Power(a1, b);
    calc {
      TRem(r * p, m);
      { TRemMul(p, r, m); assert p * r == r * p; }
      TRem(TRem(p, m) * r, m);
      { TRemPower(a, b, m); }
      TRem(TRem(s, m) * r, m);
      { TRemMul(s, r, m); assert s * r == r * s; }
      TRem(r * s, m);
    }
    PowerHalve(a1, b);
    var h := Power(a1 * a1, b / 2);
    if b % 2 == 1 {
      MulAssoc(r, a1, h);
      TRemMul(r * a1, h, m);
    }
  }

  /** The reduction `a %= m` inside `pow`. */
  method Reduce(a: DH, m: DH) returns (ok: bool)
    requires a.Valid() && m.Valid() && m.Value() != 0 && a != m && a.digit != m.digit
    modifies a, a.digit
    ensures ok <==> !RemTraps(old(a.Value()), m.Value())
    ensures ok ==> a.Valid() && a.Value() == TRem(old(a.Value()), m.Value())
    ensures a.digit == old(a.digit) || fresh(a.digit)
  {
    hide Val, P;
    TrapsByValue(a.Ds(), m.Ds());
    var outcome := a.Mod(m);
    ok := outcome == Done;
  }

  /** Four numbers that share neither object nor digits. */
  ghost predicate Separate(a: DH, b: DH, r: DH, m: DH)
    reads a, b, r, m
  {
    a != b && a != r && a != m && b != r && b != m && r != m &&
    a.digit != b.digit && a.digit != r.digit && a.digit != m.digit &&
    b.digit != r.digit && b.digit != m.digit && r.digit != m.digit
  }

  /** One pass of the loop of `pow`, up to the test of the exponent; not ok when a reduction traps. */
  method PowPass(a: DH, b: DH, r: DH, m: DH) returns (ok: bool)
    requires a.Valid() && b.Valid() && r.Valid() && m.Valid() && m.Value() != 0
    requires Separate(a, b, r, m)
    modifies a, b, r, a.digit, b.digit, r.digit
    ensures var a1 := TRem(old(a.Value()), m.Value());
      ok <==> !RemTraps(old(a.Value()), m.Value())
              && (Abs(old(b.Value())) % 2 == 1 ==> !RemTraps(old(r.Value()) * a1, m.Value()))
    ensures ok ==> a.Valid() && b.Valid() && r.Valid() && Separate(a, b, r, m)
    ensures ok ==> a.Value() == TRem(old(a.Value()), m.Value())
    ensures ok ==> Abs(b.Value()) == Abs(old(b.Value())) / 2
    ensures ok ==>
      r.Value() == if Abs(old(b.Value())) % 2 == 1 then TRem(old(r.Value()) * a.Value(), m.Value()) else old(r.Value())
    ensures a.digit == old(a.digit) || fresh(a.digit)
    ensures b.digit == old(b.digit)
    ensures r.digit == old(r.digit) || fresh(r.digit)
  {
    hide Val, P, DH.Valid, DH.Value, RemTraps, TRem;
    ok := Reduce(a, m);
    if !ok {
      return;
    }
    var odd := b.IsOdd();
    if odd {
      r.Mul(a);
      ok := Reduce(r, m);
      if !ok {
        return;
      }
    }
    var halved := b.DivUlong(2);
  }

  /** The loop of `pow`. */
  method PowLoop(a: DH, b: DH, r: DH, m: DH) returns (ok: bool)
    requires a.Valid() && b.Valid() && r.Valid() && m.Valid() && m.Value() != 0 && r.Value() == 1
    requires Separate(a, b, r, m)
    modifies a, b, r, a.digit, b.digit, r.digit
    ensures ok <==> !PowTraps(old(a.Value()), Abs(old(b.Value())), 1, m.Value())
    ensures ok ==> r.Valid() && (r.digit == old(r.digit) || fresh(r.digit))
    ensures ok ==> r.Value() == PowResult(old(a.Value()), Abs(old(b.Value())), m.Value())
  {
    hide Val, P, DH.Valid, DH.Value, TRem, Power, RemTraps, PowTraps;
    ghost var x, n, M := a.Value(), Abs(b.Value()), m.Value();
    assert TRem(1 * Power(x, n), M) == TRem(Power(x, n), M);
    while true
      invariant a.Valid() && b.Valid() && r.Valid() && m.Valid() && m.Value() == M
      invariant a.digit == old(a.digit) || fresh(a.digit)
      invariant b.digit == old(b.digit)
      invariant r.digit == old(r.digit) || fresh(r.digit)
      invariant Separate(a, b, r, m)
      invariant n > 0 ==> Abs(b.Value()) > 0
      invariant n == 0 ==> b.Value() == 0 && r.Value() == 1
      invariant TRem(r.Value() * Power(a.Value(), Abs(b.Value())), M) == TRem(Power(x, n), M)
      invariant PowTraps(x, n, 1, M) <==> PowTraps(a.Value(), Abs(b.Value()), r.Value(), M)
      decreases Abs(b.Value())
    {
      PowStep(r.Value(), a.Value(), Abs(b.Value()), M);
      LastPass(r.Value(), TRem(a.Value(), M), Abs(b.Value()), M);
      TrapStep(a.Value(), Abs(b.Value()), r.Value(), M);
      ok := PowPass(a, b, r, m);
      if !ok {
        return;
      }
      var zero := b.IsZero();
      if zero {
        break;
      }
      a.Mul(a);
    }
  }

  lemma TrapStep(a: int, b: nat, r: int, m: int)
    requires m != 0
    ensures var a1 := TRem(a, m);
      PowTraps(a, b, r, m) <==>
        RemTraps(a, m) || (b % 2 == 1 && RemTraps(r * a1, m))
        || (b / 2 > 0 && PowTraps(a1 * a1, b / 2, if b % 2 == 1 then TRem(r * a1, m) else r, m))
  {
    hide RemTraps, TRem;
  }

  /** Exponent one ends the loop with a reduced result. */
  lemma LastPass(r: int, a: int, b: nat, m: int)
    requires m != 0
    ensures Power(a * a, 0) == 1
    ensures b % 2 == 1 ==> TRem(TRem(r * a, m) * 1, m) == TRem(r * a, m)
  {
    TRemIdempotent(r * a, m);
  }

  /** `DH::pow`; not ok exactly when a reduction traps. */
  method Pow(x: DH, y: DH, m: DH) returns (ok: bool, r: DH)
    requires x.Valid() && y.Valid() && m.Valid()
    ensures ok <==> m.Value() == 0 || !PowTraps(x.Value(), Abs(y.Value()), 1, m.Value())
    ensures fresh(r) && (ok ==> fresh(r.digit) && r.Valid())
    ensures ok ==> r.Value() == PowResult(x.Value(), Abs(y.Value()), m.Value())
  {
    hide Val, P, DH.Valid, DH.Value, PowTraps, TRem, Power;
    var zero := m.IsZero();
    if zero {
      r := new DH.Digit(0);
      ok := true;
      return;
    }
    var a := new DH.Copy(x);
    var b := new DH.Copy(y);
    r := new DH.Digit(1);
    ok := PowLoop(a, b, r, m);
  }
}
