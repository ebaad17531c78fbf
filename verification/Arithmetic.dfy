/** Integer arithmetic: products, quotients, and division as C rounds it. */
module Arithmetic {

  lemma MulAssoc(x: int, y: int, z: int)
    ensures x * (y * z) == (x * y) * z
  {
  }

  lemma MulMonotone(x: int, y: int, k: int)
    requires x <= y && 0 <= k
    ensures x * k <= y * k
  {
    assert 0 <= (y - x) * k;
  }

  lemma Distribute(x: int, y: int, k: int)
    ensures (x + y) * k == x * k + y * k
    ensures (x - y) * k == x * k - y * k
  {
  }

  /** The quotient of a number below b times the divisor is below b. */
  lemma DivideBelow(t: int, d: int, b: int)
    requires 0 < d && 0 <= t < b * d
    ensures 0 <= t / d < b && 0 <= t % d < d && t == (t / d) * d + t % d
  {
    var u := t / d;
    assert t == d * u + t % d;
    if u >= b {
      MulMonotone(b, u, d);
    }
    if u < 0 {
      MulMonotone(u, -1, d);
    }
  }

  lemma DivideMonotone(a: int, b: int, d: int)
    requires 0 <= a <= b && 0 < d
    ensures 0 <= a / d <= b / d
  {
    var u, v := a / d, b / d;
    assert a == u * d + a % d && b == v * d + b % d;
    if u > v {
      MulMonotone(v + 1, u, d);
      Distribute(v, 1, d);
    }
    if u < 0 {
      MulMonotone(u, -1, d);
    }
  }

  lemma QuotientUnique(X: int, Y: int, q: int, d: int)
    requires 0 <= d < Y && X == q * Y + d
    ensures X / Y == q && X % Y == d
  {
    var u, v := X / Y, X % Y;
    assert X == Y * u + v;
    Distribute(u, q, Y);
    if u > q {
      MulMonotone(1, u - q, Y);
    } else if u < q {
      MulMonotone(u - q, -1, Y);
    }
  }

  lemma ExactQuotient(v: int, k: int, q: int, r: int)
    requires 0 < k && 0 <= r < k && v * k == q * k + r
    ensures q == v && r == 0
  {
    Distribute(v, q, k);
    if v - q >= 1 {
      MulMonotone(1, v - q, k);
    } else if v - q <= -1 {
      MulMonotone(v - q, -1, k);
    }
  }

  lemma SmallRemainder(x: int, y: int)
    requires 0 <= x < y
    ensures x % y == x && x / y == 0
  {
    QuotientUnique(x, y, 0, x);
  }

  /** Quotient and remainder as C rounds them: toward zero, the remainder taking the dividend's sign. */
  function TDiv(x: int, y: int): int
    requires y != 0
  {
    if (x < 0) == (y < 0) then Abs(x) / Abs(y) else -(Abs(x) / Abs(y))
  }

  function TRem(x: int, y: int): int
    requires y != 0
  {
    if x < 0 then -(Abs(x) % Abs(y)) else x % Abs(y)
  }

  function Abs(x: int): nat {
    if x < 0 then -x else x
  }

  lemma NegateProduct(q: int, y: int)
    ensures (-q) * y == q * (-y) == -(q * y)
  {
  }

  /** Truncated division decomposes the dividend, and the remainder is smaller than the divisor. */
  lemma TruncatedDivision(x: int, y: int)
    requires y != 0
    ensures x == TDiv(x, y) * y + TRem(x, y)
    ensures Abs(TRem(x, y)) < Abs(y) && (TRem(x, y) != 0 ==> (TRem(x, y) < 0) == (x < 0))
  {
    var q, r := Abs(x) / Abs(y), Abs(x) % Abs(y);
    assert Abs(x) == q * Abs(y) + r;
    NegateProduct(q, y);
    NegateProduct(q, -y);
  }

  function Power(x: int, n: nat): int
    decreases n
  {
    if n == 0 then 1 else x * Power(x, n - 1)
  }

  lemma {:induction false} PowerAdd(x: int, j: nat, k: nat)
    ensures Power(x, j + k) == Power(x, j) * Power(x, k)
  {
    if j > 0 {
      PowerAdd(x, j - 1, k);
      MulAssoc(x, Power(x, j - 1), Power(x, k));
      assert j + k - 1 == j - 1 + k;
    }
  }

  lemma {:induction false} PowerPositive(x: int, k: nat)
    requires 1 <= x
    ensures 1 <= Power(x, k)
  {
    if k > 0 {
      PowerPositive(x, k - 1);
      MulMonotone(1, x, Power(x, k - 1));
    }
  }

  lemma PowerMonotone(x: int, j: nat, k: nat)
    requires 1 <= x && j <= k
    ensures Power(x, j) <= Power(x, k)
  {
    hide Power;
    PowerAdd(x, j, k - j);
    PowerPositive(x, j);
    PowerPositive(x, k - j);
    MulMonotone(1, Power(x, k - j), Power(x, j));
  }

  lemma {:induction false} PowerPower(x: int, j: nat, k: nat)
    ensures 0 <= j * k && Power(Power(x, j), k) == Power(x, j * k)
    decreases k
  {
    if k > 0 {
      PowerPower(x, j, k - 1);
      assert j * k == j + j * (k - 1);
      PowerAdd(x, j, j * (k - 1));
    }
  }

  function Signed(positive: bool, m: nat): int {
    if positive then m else -(m as int)
  }
}
