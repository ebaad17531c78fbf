/**
 Numbers as little-endian strings of 32-bit digits, the representation under
 the big-integer class of libs/DH.  `Val` gives the number a digit string
 stands for; the lemmas relate it to the ends of the string at which the
 carry, borrow and division loops work.
 */
module Digits {
  import opened Arithmetic

  /** One more than the largest single digit (`base` in dh.h). */
  const BASE: int := 0x1_0000_0000

  /** One more than the largest 64-bit intermediate. */
  const BASE2: int := 0x1_0000_0000_0000_0000

  /** Half of BASE: a scaled divisor's top digit is at least this. */
  const HALF: int := 0x8000_0000

  /** A 32-bit digit. */
  type OneDig = x: int | 0 <= x < BASE

  /** A 64-bit intermediate: every assignment to one proves it does not wrap. */
  type TwoDig = x: int | 0 <= x < BASE2

  /** The value of a digit string, least significant digit first. */
  function Val(s: seq<OneDig>): (v: nat)
  {
    if s == [] then 0 else s[0] + BASE * Val(s[1..])
  }

  /** The weight of the digit at position n. */
  function P(n: nat): (p: nat)
    ensures p > 0
  {
    if n == 0 then 1 else BASE * P(n - 1)
  }

  /** No leading zero digit. */
  predicate Normal(s: seq<OneDig>) {
    s == [] || s[|s| - 1] != 0
  }

  lemma {:induction false} PMonotone(m: nat, n: nat)
    requires m <= n
    ensures P(m) <= P(n)
    decreases n
  {
    if m < n {
      PMonotone(m, n - 1);
    }
  }

  // ------------------------------------------------------------------- values

  lemma ValEmpty()
    ensures Val([]) == 0 && P(0) == 1
  {
  }

  lemma {:induction false} ValConcat(s: seq<OneDig>, t: seq<OneDig>)
    ensures Val(s + t) == Val(s) + Val(t) * P(|s|)
  {
    if s == [] {
      assert s + t == t;
    } else {
      ValConcat(s[1..], t);
      assert (s + t)[1..] == s[1..] + t;
      var v, p, k := Val(s[1..]), P(|s| - 1), Val(t);
      calc {
        Val(s + t);
        s[0] + BASE * (v + k * p);
        Val(s) + k * p * BASE;
        { MulAssoc(k, p, BASE); }
        Val(s) + k * (BASE * p);
      }
    }
  }

  lemma {:induction false} ValSnoc(s: seq<OneDig>, d: OneDig)
    ensures Val(s + [d]) == Val(s) + d * P(|s|)
  {
    ValConcat(s, [d]);
    assert Val([d]) == d;
  }

  lemma {:induction false} ValSplit(s: seq<OneDig>, i: nat)
    requires i <= |s|
    ensures Val(s) == Val(s[..i]) + Val(s[i..]) * P(i)
  {
    ValConcat(s[..i], s[i..]);
    assert s == s[..i] + s[i..];
  }

  /** Splitting off the top digit of a prefix. */
  lemma {:induction false} ValPrefix(s: seq<OneDig>, i: nat)
    requires i < |s|
    ensures Val(s[..i + 1]) == Val(s[..i]) + s[i] * P(i)
  {
    assert s[..i + 1] == s[..i] + [s[i]];
    ValSnoc(s[..i], s[i]);
  }

  /** Splitting off the bottom digit of a suffix. */
  lemma {:induction false} ValSuffix(s: seq<OneDig>, i: nat)
    requires i < |s|
    ensures Val(s[i..]) == s[i] + BASE * Val(s[i + 1..])
  {
    assert s[i..][1..] == s[i + 1..];
  }

  lemma {:induction false} ValBound(s: seq<OneDig>)
    ensures Val(s) < P(|s|)
  {
    if s != [] {
      ValBound(s[1..]);
    }
  }

  /** A number reaches the weight of its top position exactly when the top digit is not zero. */
  lemma {:induction false} TopDigit(s: seq<OneDig>)
    requires s != []
    ensures s[|s| - 1] != 0 <==> Val(s) >= P(|s| - 1)
  {
    var n := |s| - 1;
    ValPrefix(s, n);
    assert s[..n + 1] == s;
    ValBound(s[..n]);
    if s[n] != 0 {
      MulMonotone(1, s[n], P(n));
    }
  }

  /** Digit strings of one length and one value are equal. */
  lemma {:induction false} ValInjective(s: seq<OneDig>, t: seq<OneDig>)
    requires |s| == |t| && Val(s) == Val(t)
    ensures s == t
  {
    if s != [] {
      assert s[0] == t[0] && Val(s[1..]) == Val(t[1..]);
      ValInjective(s[1..], t[1..]);
      assert s == [s[0]] + s[1..] && t == [t[0]] + t[1..];
    }
  }

  /** Normal strings order by length first, and a number has one normal string. */
  lemma {:induction false} NormalLength(s: seq<OneDig>, t: seq<OneDig>)
    requires Normal(s) && Normal(t)
    ensures |s| < |t| ==> Val(s) < Val(t)
    ensures Val(s) == Val(t) ==> s == t
  {
    if |s| < |t| {
      ValBound(s);
      TopDigit(t);
      PMonotone(|s|, |t| - 1);
    } else if |t| < |s| {
      ValBound(t);
      TopDigit(s);
      PMonotone(|t|, |s| - 1);
    } else if Val(s) == Val(t) {
      ValInjective(s, t);
    }
  }

  /** Leading zero digits do not change the value. */
  lemma {:induction false} ValLeadingZero(s: seq<OneDig>, n: nat)
    requires n <= |s| && forall i :: n <= i < |s| ==> s[i] == 0
    ensures Val(s) == Val(s[..n])
    decreases |s| - n
  {
    if n == |s| {
      assert s[..n] == s;
    } else {
      ValLeadingZero(s, n + 1);
      ValPrefix(s, n);
    }
  }
}
