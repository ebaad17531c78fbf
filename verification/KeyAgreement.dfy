/**
 The Diffie-Hellman key agreement of the wire protocol: the client's opening and
 closing steps (libs/network/tcp_client.cpp) and the server's answer
 (libs/network/epoll_v2.cpp), with numbers travelling as packed decimal text.
 */
module KeyAgreement {
  import opened MachineWords
  import opened Numerals
  import opened Arithmetic
  import opened Bitbase
  import opened Digits
  import opened BigNumber
  import opened ModularPower
  import opened NumberText
  import opened NumberPacking

  // ---------------------------------------------------------------- commutation

  /**
   Raising to two exponents in either order gives one key, exactly unless the
   modulus is one and just one of the exponents is zero.
   */
  lemma KeysCommute(g: int, a: nat, b: nat, p: int)
    ensures PowResult(PowResult(g, a, p), b, p) == PowResult(PowResult(g, b, p), a, p)
      <==> !(Abs(p) == 1 && (a == 0) != (b == 0))
  {
    if Abs(p) > 1 {
      KeyIsPower(g, a, b, p);
      KeyIsPower(g, b, a, p);
      assert a * b == b * a;
    }
  }

  /** The shared key is the base to the product of the exponents. */
  lemma KeyIsPower(g: int, a: nat, b: nat, p: int)
    requires Abs(p) > 1
    ensures 0 <= a * b && PowResult(PowResult(g, a, p), b, p) == TRem(Power(g, a * b), p)
  {
    PowResultIsRemainder(g, a, p);
    PowResultIsRemainder(PowResult(g, a, p), b, p);
    TRemPower(Power(g, a), b, p);
    PowerPower(g, a, b);
  }

  // ------------------------------------------------------------------- messages

  /** The client's first message before it is packed: the size of p's text in four bytes, then g, p and A. */
  function Message(g: string, p: string, A: string): string {
    Num(|p|, 4) + g + p + A
  }

  /** What the server reads in an unpacked message; `Malformed` is the out-of-range exception. */
  datatype Reading = Ignored | Malformed | Fields(g: string, p: string, A: string)

  /** The size is a signed 32-bit number, compared and passed on as an unsigned one. */
  function ReadHello(keys: string): Reading {
    if |keys| <= 4 then Ignored
    else
      var size := ToInt32(Denum(keys[..4]));
      if 7 + size < 0 || 7 + size >= W32 / 2 || 7 + size >= |keys| then Malformed
      else if size >= 0 then Fields(keys[4..5], keys[5..5 + size], keys[5 + size..])
      else if 5 + size < 0 then Malformed
      else Fields(keys[4..5], keys[5..], keys[5 + size..])
  }

  /** No byte of the size is a code of the pair coding. */
  predicate PlainSize(n: nat) {
    Plain(Num(n, 4))
  }

  const LONGEST: int := W32 / 2 - 8

  lemma FourBytes()
    ensures Pow256(4) == W32
  {
    assert Pow256(1) == 256 && Pow256(2) == 256 * Pow256(1);
    assert Pow256(3) == 256 * Pow256(2) && Pow256(4) == 256 * Pow256(3);
  }

  /** The message as the server sees it: only the four bytes of the size can change. */
  lemma Received(g: string, p: string, A: string)
    requires Decimal(g) && Decimal(p) && Decimal(A)
    ensures Unpack(Pack(Message(g, p, A))) == Unpack(Num(|p|, 4)) + (g + p + A)
    ensures Unpack(Pack(Message(g, p, A))) == Message(g, p, A) <==> PlainSize(|p|)
  {
    hide Unpack, Pack, Num, Plain, AllDigits;
    BodyDecimal(g, p, A);
    assert Message(g, p, A) == Num(|p|, 4) + (g + p + A);
    PrefixRoundTrip(Num(|p|, 4), g + p + A);
  }

  lemma BodyDecimal(g: string, p: string, A: string)
    requires Decimal(g) && Decimal(p) && Decimal(A)
    ensures AllDigits(g + p + A, 10)
  {
    hide IsDigit;
  }

  /**
   The server reads what the client sent exactly when no byte of the size of p is a code and A has three
   places; with such a byte it always takes a shorter text for p.
   */
  lemma HelloArrives(g: string, p: string, A: string)
    requires |g| == 1 && Decimal(g) && Decimal(p) && Decimal(A) && A != [] && |p| <= LONGEST
    ensures ReadHello(Unpack(Pack(Message(g, p, A)))) == Fields(g, p, A) <==> PlainSize(|p|) && |A| >= 3
    ensures PlainSize(|p|) && |A| < 3 ==> ReadHello(Unpack(Pack(Message(g, p, A)))) == Malformed
    ensures !PlainSize(|p|) ==>
      var read := ReadHello(Unpack(Pack(Message(g, p, A))));
      read.Fields? && |read.p| < |p|
  {
    hide Unpack, Pack, Num, Denum, Plain, IsDigit, ToInt32, Pow256;
    var h, body := Num(|p|, 4), g + p + A;
    var keys := Unpack(Pack(Message(g, p, A)));
    Received(g, p, A);
    FourBytes();
    if PlainSize(|p|) {
      assert keys[..4] == h;
      NumRoundTrip(|p|, 4);
      Kept(|p|);
      assert keys[4..5] == g && keys[5..5 + |p|] == p && keys[5 + |p|..] == A;
    } else {
      SizeShrinks(|p|, 4);
      assert keys[..4] == Unpack(h)[..4];
      Kept(Denum(keys[..4]));
    }
  }

  /** With a p of 77 digits the server takes g and 54 digits of p for p, and 7 for g. */
  lemma SeventySevenDigits(g: string, p: string, A: string)
    requires |g| == 1 && Decimal(g) && Decimal(p) && Decimal(A) && |p| == 77
    ensures ReadHello(Unpack(Pack(Message(g, p, A)))) == Fields("7", g + p[..54], p[54..] + A)
  {
    hide Unpack, Pack, IsDigit, ToInt32, Num, Denum;
    var z := 0 as char;
    var keys := Unpack(Pack(Message(g, p, A)));
    Received(g, p, A);
    Size77();
    assert keys[..4] == [z, z, z, '7'];
    Kept(55);
    assert keys[4..5] == "7" && keys[5..60] == g + p[..54] && keys[60..] == p[54..] + A;
  }

  lemma Size77()
    ensures Unpack(Num(77, 4)) == [0 as char, 0 as char, 0 as char] + "77"
    ensures Denum([0 as char, 0 as char, 0 as char, '7']) == 55
  {
    hide Unpack, Num, Denum;
    var z := [0 as char, 0 as char, 0 as char];
    Zeros();
    assert Num(77, 4) == z + "M" && Unpack("M") == "77" && Denum(z + "7") == 55 by {
      Last77(z);
    }
    UnpackConcat(z, "M");
    UnpackKeeps(z);
    assert [0 as char, 0 as char, 0 as char, '7'] == z + "7";
  }

  lemma Zeros()
    ensures Num(0, 3) == [0 as char, 0 as char, 0 as char] && Denum([0 as char, 0 as char, 0 as char]) == 0
  {
    var z := 0 as char;
    assert Num(0, 1) == [z] && Num(0, 2) == [z, z];
    NumRoundTrip(0, 3);
  }

  lemma Last77(z: string)
    requires z == Num(0, 3) && Denum(z) == 0
    ensures Num(77, 4) == z + "M" && Unpack("M") == "77" && Denum(z + "7") == 55
  {
    assert (z + "7")[..|z|] == z;
    PairText('7', '7');
    assert 'M' as int == 77 && "M"[1..] == "";
  }

  /** Whether an exponentiation comes to a division that traps. */
  predicate Fails(x: nat, n: nat, m: nat) {
    m != 0 && PowTraps(x, n, 1, m)
  }

  /** A text of decimal digits that names a usable modulus or exponent. */
  predicate Decimal(s: string) {
    AllDigits(s, 10)
  }

  function Number(s: string): nat
    requires Decimal(s)
  {
    Horner(0, s, 10)
  }

  lemma DecimalScan(s: string)
    requires Decimal(s)
    ensures Unsigned(s) == s && ScanValue(s, 10) == Number(s)
  {
    assert s != [] ==> IsDigit(s[0], 10);
  }

  lemma DecimalText(n: nat)
    ensures Decimal(NatText(n, 10)) && Number(NatText(n, 10)) == n
    ensures |NatText(n, 10)| >= 3 <==> n >= 100
  {
    NatTextMeans(n, 10);
    assert n >= 10 ==> (n / 10 >= 10 <==> n >= 100);
  }

  /** Reading a decimal number, as all sites do. */
  method ReadNumber(s: string) returns (x: DH)
    requires Decimal(s)
    ensures fresh(x) && fresh(x.digit) && x.Valid() && x.Value() == Number(s)
  {
    DecimalScan(s);
    var complete;
    x, complete := Scan(s, 10);
  }

  /** One exponentiation at either site: all operands are read from text and the result is printed. */
  method PowText(x: string, y: string, m: string) returns (ok: bool, s: string)
    requires Decimal(x) && Decimal(y) && Decimal(m)
    ensures ok <==> !Fails(Number(x), Number(y), Number(m))
    ensures PowResult(Number(x), Number(y), Number(m)) >= 0
    ensures ok ==> s == NatText(PowResult(Number(x), Number(y), Number(m)), 10)
  {
    hide Val, P, NatText, Horner, AllDigits, PowResult, PowTraps;
    var a := ReadNumber(x);
    var e := ReadNumber(y);
    var p := ReadNumber(m);
    PowNatural(a.Value(), Abs(e.Value()), p.Value());
    var r;
    ok, r := Pow(a, e, p);
    s := "";
    if ok {
      s := GetString(r, 10);
    }
  }

  lemma PowNatural(x: nat, n: nat, m: nat)
    ensures 0 <= PowResult(x, n, m) && (PowResult(x, n, m) >= 2 ==> PowResult(x, n, m) < m)
  {
    if x > 0 {
      PowerPositive(x, n);
    } else if n > 0 {
      assert Power(0, n) == 0 * Power(0, n - 1);
    }
  }

  /** The client's opening: A = g^a mod p behind the size of p, packed. */
  method ClientHello(g: string, p: string, a: string) returns (ok: bool, wire: string)
    requires Decimal(g) && Decimal(p) && Decimal(a)
    ensures ok <==> !Fails(Number(g), Number(a), Number(p))
    ensures var A := PowResult(Number(g), Number(a), Number(p));
      A >= 0 && (ok ==> wire == Pack(Message(g, p, NatText(A, 10))))
  {
    var aText;
    ok, aText := PowText(g, a, p);
    var size := NumericToChars(|p|, 4);
    wire := CompressNumber(size + g + p + aText);
  }

  /** The server's answer: `Rejected` is the exception, `Crashed` the arithmetic trap. */
  datatype Reply = NoReply | Rejected | Crashed | Reply(key: string, b: string)

  /** Unpacks the message, derives B and the key. */
  method ServerReply(wire: string, b: string) returns (reply: Reply)
    requires Decimal(b)
    requires var read := ReadHello(Unpack(wire));
      read.Fields? ==> Decimal(read.g) && Decimal(read.p) && Decimal(read.A)
    ensures reply.NoReply? <==> ReadHello(Unpack(wire)).Ignored?
    ensures reply.Rejected? <==> ReadHello(Unpack(wire)).Malformed?
    ensures ReadHello(Unpack(wire)).Fields? ==>
      var Fields(g, p, A) := ReadHello(Unpack(wire));
      && (reply.Crashed? <==> Fails(Number(g), Number(b), Number(p)) || Fails(Number(A), Number(b), Number(p)))
      && PowResult(Number(g), Number(b), Number(p)) >= 0 && PowResult(Number(A), Number(b), Number(p)) >= 0
      && (reply.Reply? ==> reply.b == Pack(NatText(PowResult(Number(g), Number(b), Number(p)), 10))
                           && reply.key == NatText(PowResult(Number(A), Number(b), Number(p)), 10))
  {
    hide NatText, Horner, PowResult, Fails, ReadHello, Pack, Unpack;
    var keys := UncompressNumber(wire);
    match ReadHello(keys) {
      case Ignored => reply := NoReply;
      case Malformed => reply := Rejected;
      case Fields(g, p, A) =>
        var ok1, bText := PowText(g, b, p);
        var ok2, key := PowText(A, b, p);
        if ok1 && ok2 {
          bText := CompressNumber(bText);
          reply := Reply(key, bText);
        } else {
          reply := Crashed;
        }
    }
  }

  /** The four exponentiations of an exchange get through. */
  ghost predicate NoneFails(g: nat, a: nat, b: nat, p: nat) {
    PowNatural(g, a, p);
    PowNatural(g, b, p);
    !Fails(g, a, p) && !Fails(g, b, p) && !Fails(PowResult(g, a, p), b, p) && !Fails(PowResult(g, b, p), a, p)
  }

  /** They do for every modulus of one digit, or whose top digit is not the largest. */
  lemma SafeExchange(g: nat, a: nat, b: nat, p: nat)
    requires !TrapDivisor(p)
    ensures NoneFails(g, a, b, p)
  {
    PowNatural(g, a, p);
    PowNatural(g, b, p);
    if p != 0 {
      SafeModulus(g, a, 1, p);
      SafeModulus(g, b, 1, p);
      SafeModulus(PowResult(g, a, p), b, 1, p);
      SafeModulus(PowResult(g, b, p), a, 1, p);
    }
  }

  /** `Garbled`: the server goes on with a shorter text for p than the client's. */
  datatype Outcome = Established(client: string, server: string) | Garbled | Failed

  /**
   The whole exchange.  It is established exactly when no exponentiation traps, the client's number has at
   least three decimal places and no byte of the size of p is a code of the pair coding; then both sides hold
   one key text.
   */
  method Exchange(g: string, p: string, a: string, b: string) returns (outcome: Outcome)
    requires |g| == 1 && Decimal(g) && Decimal(p) && Decimal(a) && Decimal(b) && |p| <= LONGEST
    ensures outcome.Established? <==>
      && PlainSize(|p|)
      && NoneFails(Number(g), Number(a), Number(b), Number(p))
      && PowResult(Number(g), Number(a), Number(p)) >= 100
    ensures outcome.Garbled? <==> !PlainSize(|p|) && !Fails(Number(g), Number(a), Number(p))
    ensures outcome.Established? ==> outcome.client == outcome.server
    ensures outcome.Established? ==> Number(p) > 1 && 0 <= Number(a) * Number(b)
    ensures outcome.Established? ==>
      var key := TRem(Power(Number(g), Number(a) * Number(b)), Number(p));
      key >= 0 && outcome.client == NatText(key, 10)
  {
    hide NatText, Horner, PowResult, Fails, Pack, Unpack, ReadHello, PlainSize, AllDigits;
    ghost var G, N, x, y := Number(g), Number(p), Number(a), Number(b);
    outcome := Failed;
    PowNatural(G, x, N);
    PowNatural(G, y, N);
    var ok, wire := ClientHello(g, p, a);
    if !ok {
      return;
    }
    DecimalText(PowResult(G, x, N));
    HelloArrives(g, p, NatText(PowResult(G, x, N), 10));
    var keys := UncompressNumber(wire);
    var read := ReadHello(keys);
    if read.Fields? && |read.p| != |p| {
      outcome := Garbled;
      return;
    }
    var reply := ServerReply(wire, b);
    if reply.Reply? {
      ghost var t := NatText(PowResult(G, y, N), 10);
      DecimalText(PowResult(G, y, N));
      DecimalPlain(t);
      PackRoundTrip(t);
      var bText := UncompressNumber(reply.b);
      var got, client := PowText(bText, a, p);
      if got {
        outcome := Established(client, reply.key);
        KeyIsPower(G, x, y, N);
        KeyIsPower(G, y, x, N);
        assert x * y == y * x;
      }
    }
  }
}
