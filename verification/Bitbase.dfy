/** Big-endian numbers in text (libs/bitbase.h: `numeric_to_chars`, `chars_to_numeric`). */
module Bitbase {

  function Pow256(k: nat): (p: nat)
    ensures p > 0
  {
    if k == 0 then 1 else 256 * Pow256(k - 1)
  }

  /** The low sz bytes of a number, most significant first. */
  function Num(n: nat, sz: nat): (s: string)
    ensures |s| == sz
    decreases sz
  {
    if sz == 0 then [] else Num(n / 256, sz - 1) + [(n % 256) as char]
  }

  /** The number that bytes stand for. */
  function Denum(s: string): nat {
    if s == [] then 0 else Denum(s[..|s| - 1]) * 256 + s[|s| - 1] as int
  }

  /** Writing and reading a number gives its low bytes: the number itself when it fits. */
  lemma {:induction false} NumRoundTrip(n: nat, sz: nat)
    requires n < Pow256(sz)
    ensures Denum(Num(n, sz)) == n
    decreases sz
  {
    if sz > 0 {
      var s := Num(n, sz);
      assert s[..|s| - 1] == Num(n / 256, sz - 1);
      NumRoundTrip(n / 256, sz - 1);
    }
  }

  predicate AllBytes(s: string) {
    forall i :: 0 <= i < |s| ==> s[i] as int < 256
  }

  lemma {:induction false} NumBytes(n: nat, sz: nat)
    ensures AllBytes(Num(n, sz))
    decreases sz
  {
    if sz > 0 {
      NumBytes(n / 256, sz - 1);
    }
  }

  /** Of two numbers of one size the one with the smaller byte at the first difference is the smaller. */
  lemma {:induction false} DenumLess(s: string, t: string, i: nat)
    requires i < |s| == |t| && AllBytes(s) && s[..i] == t[..i] && s[i] < t[i]
    ensures Denum(s) < Denum(t)
  {
    var n := |s| - 1;
    if i == n {
      assert s[..n] == t[..n];
    } else {
      assert s[..n][..i] == s[..i] && t[..n][..i] == t[..i];
      DenumLess(s[..n], t[..n], i);
    }
  }

  /** The remaining high part of a number once its low k bytes are shifted out. */
  function Shifted(n: nat, k: nat): nat
    decreases k
  {
    if k == 0 then n else Shifted(n, k - 1) / 256
  }

  lemma {:induction false} ShiftedOnce(n: nat, k: nat)
    ensures Shifted(n / 256, k) == Shifted(n, k + 1)
    decreases k
  {
    if k > 0 {
      ShiftedOnce(n, k - 1);
    }
  }

  /** Taking the bytes from the high end: the first byte is the number shifted by all the others. */
  lemma {:induction false} NumFromTop(n: nat, sz: nat)
    ensures Num(n, sz + 1) == [(Shifted(n, sz) % 256) as char] + Num(n, sz)
    decreases sz
  {
    if sz > 0 {
      NumFromTop(n / 256, sz - 1);
      ShiftedOnce(n, sz - 1);
    }
  }

  /** `numeric_to_chars`: the loop from the high byte down. */
  method NumericToChars(n: nat, sz: nat) returns (s: string)
    ensures s == Num(n, sz)
  {
    s := [];
    var k := sz;
    while k > 0
      invariant 0 <= k <= sz && Num(n, sz) == s + Num(n, k)
    {
      k := k - 1;
      NumFromTop(n, k);
      s := s + [(Shifted(n, k) % 256) as char];
    }
  }

  lemma PlaceValue(h: nat, c: nat, w: nat)
    ensures (h * 256 + c) * w == h * (256 * w) + c * w
  {
  }

  /** `chars_to_numeric`: the loop from the last byte, each shifted by its place. */
  method CharsToNumeric(t: string) returns (n: nat)
    ensures n == Denum(t)
  {
    n := 0;
    var i, j := |t|, 0;
    assert t[..|t|] == t;
    while i > 0
      invariant 0 <= i <= |t| && j == |t| - i
      invariant Denum(t) == Denum(t[..i]) * Pow256(j) + n
    {
      i := i - 1;
      assert t[..i + 1][..i] == t[..i];
      ghost var h := Denum(t[..i]);
      var c, w := t[i] as int, Pow256(j);
      PlaceValue(h, c, w);
      n := n + c * w;
      j := j + 1;
    }
  }
}
