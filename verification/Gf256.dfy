// The finite field GF(2^8) the codec computes in.
module Gf256 {
  datatype Gf = Gf(bits: bv8)

  const ZERO := Gf(0)
  const ONE := Gf(1)
  const TWO := Gf(2)

  function Add(a: Gf, b: Gf): Gf {
    Gf(a.bits ^ b.bits)
  }

  function Double(a: Gf): Gf { Gf(a.bits << 1) }

  function Carry(a: Gf): Gf { if a.bits & 0x80 != 0 then Gf(0x4D) else ZERO }

  // Multiplication by the generator 2: the step by which the source fills its
  // exponent table, with the polynomial (0xA6 << 1) | 1 = 0x14D.
  function XTime(a: Gf): Gf { Add(Double(a), Carry(a)) }

  function Half(b: Gf): Gf { Gf(b.bits >> 1) }

  function Pick(b: Gf, a: Gf): Gf { if b.bits & 1 != 0 then a else ZERO }

  function MulBits(a: Gf, b: Gf, n: nat): Gf
    decreases n
  {
    if n == 0 then ZERO
    else Add(Pick(b, a), MulBits(XTime(a), Half(b), n - 1))
  }

  function Mul(a: Gf, b: Gf): Gf {
    MulBits(a, b, 8)
  }

  // The binary digits of n.
  function Digits(n: nat): bv8 {
    if n == 0 then 0 else (Digits(n / 2) << 1) | (if n % 2 == 1 then 1 else 0)
  }

  function Byte(n: nat): Gf
    requires n < 256
  {
    Gf(Digits(n))
  }

  // All bits from the k-th on.
  function From(k: nat): bv8 {
    if k == 0 then 0xFF else From(k - 1) << 1
  }

  function Pow2(k: nat): nat {
    if k == 0 then 1 else 2 * Pow2(k - 1)
  }

  lemma ShiftedClear(x: bv8, m: bv8, b: bv8)
    requires x & m == 0 && b <= 1
    ensures ((x << 1) | b) & (m << 1) == 0
  {}

  lemma ShiftedSame(x: bv8, y: bv8, b: bv8, c: bv8)
    requires x & 0x80 == 0 && y & 0x80 == 0 && b <= 1 && c <= 1 && (x << 1) | b == (y << 1) | c
    ensures x == y && b == c
  {}

  // A number below 2^k has no bits from the k-th on.
  lemma {:induction false} DigitsBelow(n: nat, k: nat)
    requires n < Pow2(k)
    ensures Digits(n) & From(k) == 0
  {
    if n > 0 {
      DigitsBelow(n / 2, k - 1);
      ShiftedClear(Digits(n / 2), From(k - 1), if n % 2 == 1 then 1 else 0);
    }
  }

  lemma TopClear(n: nat)
    requires n < 128
    ensures Digits(n) & 0x80 == 0
  {
    assert Pow2(7) == 128 && From(7) == 0x80;
    DigitsBelow(n, 7);
  }

  lemma {:induction false} DigitsDiffer(m: nat, n: nat)
    requires m < 256 && n < 256 && Digits(m) == Digits(n)
    ensures m == n
  {
    if m > 0 || n > 0 {
      TopClear(m / 2);
      TopClear(n / 2);
      DigitsStep(m);
      DigitsStep(n);
      ShiftedSame(Digits(m / 2), Digits(n / 2), if m % 2 == 1 then 1 else 0, if n % 2 == 1 then 1 else 0);
      DigitsDiffer(m / 2, n / 2);
    }
  }

  lemma DigitsStep(n: nat)
    ensures Digits(n) == (Digits(n / 2) << 1) | (if n % 2 == 1 then 1 else 0)
  {}

  lemma ByteInjective(m: nat, n: nat)
    requires m < 256 && n < 256 && m != n
    ensures Byte(m) != Byte(n)
  {
    hide Digits;
    if Digits(m) == Digits(n) {
      DigitsDiffer(m, n);
    }
  }

  // ---- addition ----

  lemma AddZero(a: Gf)
    ensures Add(a, ZERO) == a == Add(ZERO, a)
  {}

  lemma AddSelf(a: Gf)
    ensures Add(a, a) == ZERO
  {}

  lemma AddComm(a: Gf, b: Gf)
    ensures Add(a, b) == Add(b, a)
  {}

  lemma AddAssoc(a: Gf, b: Gf, c: Gf)
    ensures Add(Add(a, b), c) == Add(a, Add(b, c))
  {}

  lemma AddSwap(a: Gf, b: Gf, c: Gf, d: Gf)
    ensures Add(Add(a, b), Add(c, d)) == Add(Add(a, c), Add(b, d))
  {}

  lemma AddCancel(a: Gf, b: Gf)
    ensures Add(a, Add(a, b)) == b == Add(Add(b, a), a)
  {}

  // ---- linearity of the bit operations ----

  lemma DoubleAdd(a: Gf, b: Gf) ensures Double(Add(a, b)) == Add(Double(a), Double(b)) {}
  lemma CarryAdd(a: Gf, b: Gf) ensures Carry(Add(a, b)) == Add(Carry(a), Carry(b)) {}
  lemma HalfAdd(a: Gf, b: Gf) ensures Half(Add(a, b)) == Add(Half(a), Half(b)) {}
  lemma PickAdd(a: Gf, b: Gf, c: Gf)
    ensures Pick(Add(a, b), c) == Add(Pick(a, c), Pick(b, c))
  {}
  lemma PickAddR(a: Gf, b: Gf, c: Gf)
    ensures Pick(c, Add(a, b)) == Add(Pick(c, a), Pick(c, b))
  {}
  lemma XTimePick(b: Gf, a: Gf)
    ensures XTime(Pick(b, a)) == Pick(b, XTime(a))
  {}

  lemma XTimeAdd(a: Gf, b: Gf)
    ensures XTime(Add(a, b)) == Add(XTime(a), XTime(b))
  {
    hide Double, Carry, Add;
    DoubleAdd(a, b);
    CarryAdd(a, b);
    AddSwap(Double(a), Double(b), Carry(a), Carry(b));
  }

  lemma {:induction false} BitsDistL(a: Gf, b: Gf, c: Gf, n: nat)
    ensures MulBits(Add(a, b), c, n) == Add(MulBits(a, c, n), MulBits(b, c, n))
    decreases n
  {
    hide XTime, Half, Pick, Add;
    if n == 0 {
      AddZero(ZERO);
    } else {
      XTimeAdd(a, b);
      PickAddR(a, b, c);
      BitsDistL(XTime(a), XTime(b), Half(c), n - 1);
      AddSwap(Pick(c, a), Pick(c, b), MulBits(XTime(a), Half(c), n - 1), MulBits(XTime(b), Half(c), n - 1));
    }
  }

  lemma {:induction false} BitsDistR(a: Gf, b: Gf, c: Gf, n: nat)
    ensures MulBits(a, Add(b, c), n) == Add(MulBits(a, b, n), MulBits(a, c, n))
    decreases n
  {
    hide XTime, Half, Pick, Add;
    if n == 0 {
      AddZero(ZERO);
    } else {
      HalfAdd(b, c);
      PickAdd(b, c, a);
      BitsDistR(XTime(a), Half(b), Half(c), n - 1);
      AddSwap(Pick(b, a), Pick(c, a), MulBits(XTime(a), Half(b), n - 1), MulBits(XTime(a), Half(c), n - 1));
    }
  }

  lemma {:induction false} BitsXTime(a: Gf, b: Gf, n: nat)
    ensures MulBits(XTime(a), b, n) == XTime(MulBits(a, b, n))
    decreases n
  {
    if n == 0 {
    } else {
      hide XTime, Half, Pick, Add;
      BitsXTime(XTime(a), Half(b), n - 1);
      XTimePick(b, a);
      XTimeAdd(Pick(b, a), MulBits(XTime(a), Half(b), n - 1));
    }
  }

  // ---- multiplication ----

  // b has no bit at position n or above.
  predicate FitsBits(b: Gf, n: nat)
    decreases n
  {
    if n == 0 then b == ZERO else FitsBits(Half(b), n - 1)
  }

  lemma FitsByte(b: Gf)
    ensures FitsBits(b, 8)
  {
    var h1 := Half(b); var h2 := Half(h1); var h3 := Half(h2); var h4 := Half(h3);
    var h5 := Half(h4); var h6 := Half(h5); var h7 := Half(h6); var h8 := Half(h7);
    assert h8 == ZERO;
    hide Half;
    assert FitsBits(h8, 0) && FitsBits(h7, 1) && FitsBits(h6, 2) && FitsBits(h5, 3);
    assert FitsBits(h4, 4) && FitsBits(h3, 5) && FitsBits(h2, 6) && FitsBits(h1, 7);
  }

  lemma SplitLow(b: Gf)
    ensures b == Add(Pick(b, ONE), XTime(Half(b)))
  {}

  lemma MulDistL(a: Gf, b: Gf, c: Gf)
    ensures Mul(Add(a, b), c) == Add(Mul(a, c), Mul(b, c))
  {
    BitsDistL(a, b, c, 8);
  }

  lemma MulDistR(a: Gf, b: Gf, c: Gf)
    ensures Mul(a, Add(b, c)) == Add(Mul(a, b), Mul(a, c))
  {
    BitsDistR(a, b, c, 8);
  }

  lemma MulXTime(a: Gf, b: Gf)
    ensures Mul(XTime(a), b) == XTime(Mul(a, b))
  {
    BitsXTime(a, b, 8);
  }

  lemma MulZero(a: Gf)
    ensures Mul(ZERO, a) == ZERO
    ensures Mul(a, ZERO) == ZERO
  {
    hide Mul, Add;
    AddSelf(a);
    AddSelf(Mul(a, a));
    MulDistL(a, a, a);
    MulDistR(a, a, a);
  }

  lemma {:induction false} OneBits(b: Gf, n: nat)
    requires FitsBits(b, n)
    ensures MulBits(ONE, b, n) == b
    decreases n
  {
    hide XTime, Half, Pick, Add;
    if n == 0 {
    } else {
      OneBits(Half(b), n - 1);
      BitsXTime(ONE, Half(b), n - 1);
      SplitLow(b);
    }
  }

  lemma MulOneL(b: Gf)
    ensures Mul(ONE, b) == b
  {
    FitsByte(b);
    OneBits(b, 8);
  }

  lemma MulPick(b: Gf, a: Gf)
    ensures Mul(Pick(b, ONE), a) == Pick(b, a)
  {
    hide Mul;
    MulOneL(a);
    MulZero(a);
  }

  lemma {:induction false} CommBits(a: Gf, b: Gf, n: nat)
    requires FitsBits(b, n)
    ensures MulBits(a, b, n) == Mul(b, a)
    decreases n
  {
    hide XTime, Half, Pick, Add, Mul;
    if n == 0 {
      MulZero(a);
    } else {
      CommBits(a, Half(b), n - 1);
      BitsXTime(a, Half(b), n - 1);
      MulXTime(Half(b), a);
      SplitLow(b);
      MulDistL(Pick(b, ONE), XTime(Half(b)), a);
      MulPick(b, a);
    }
  }

  lemma MulComm(a: Gf, b: Gf)
    ensures Mul(a, b) == Mul(b, a)
  {
    FitsByte(b);
    CommBits(a, b, 8);
  }

  lemma MulOne(a: Gf)
    ensures Mul(ONE, a) == a == Mul(a, ONE)
  {
    hide Mul;
    MulOneL(a);
    MulComm(a, ONE);
  }

  lemma {:induction false} AssocBits(a: Gf, b: Gf, c: Gf, n: nat)
    ensures MulBits(Mul(a, b), c, n) == Mul(a, MulBits(b, c, n))
    decreases n
  {
    hide XTime, Half, Pick, Add, Mul;
    if n == 0 {
      MulZero(a);
    } else {
      MulComm(a, b);
      MulXTime(b, a);
      MulComm(XTime(b), a);
      AssocBits(a, XTime(b), Half(c), n - 1);
      MulDistR(a, Pick(c, b), MulBits(XTime(b), Half(c), n - 1));
      assert Pick(c, Mul(a, b)) == Mul(a, Pick(c, b)) by { PickMul(a, b, c); }
    }
  }

  lemma PickMul(a: Gf, b: Gf, c: Gf)
    ensures Pick(c, Mul(a, b)) == Mul(a, Pick(c, b))
  {
    hide Mul;
    MulZero(a);
  }

  lemma MulAssoc(a: Gf, b: Gf, c: Gf)
    ensures Mul(Mul(a, b), c) == Mul(a, Mul(b, c))
  {
    AssocBits(a, b, c, 8);
  }

  // ---- inverses ----

  function Sqr(a: Gf): Gf { Mul(a, a) }

  lemma SqrAdd(a: Gf, b: Gf)
    ensures Sqr(Add(a, b)) == Add(Sqr(a), Sqr(b))
  {
    hide Mul, Add;
    MulDistL(a, b, Add(a, b));
    MulDistR(a, a, b);
    MulDistR(b, a, b);
    MulComm(a, b);
    AddComm(Mul(b, a), Mul(b, b));
    AddSwap(Mul(a, a), Mul(a, b), Mul(b, b), Mul(a, b));
    AddSelf(Mul(a, b));
    AddZero(Add(Sqr(a), Sqr(b)));
  }

  lemma SqrMul(a: Gf, b: Gf)
    ensures Sqr(Mul(a, b)) == Mul(Sqr(a), Sqr(b))
  {
    hide Mul;
    MulAssoc(a, b, Mul(a, b));
    MulAssoc(b, a, b);
    MulComm(b, a);
    MulAssoc(a, b, b);
    MulAssoc(a, a, Mul(b, b));
  }

  function Frobenius(a: Gf, n: nat): Gf
    decreases n
  {
    if n == 0 then a else Frobenius(Sqr(a), n - 1)
  }

  // Squaring is linear over the bits: bit i contributes 4^i.
  function SqrBits(b: Gf, v: Gf, n: nat): Gf
    decreases n
  {
    if n == 0 then ZERO else Add(Pick(b, v), SqrBits(Half(b), XTime(XTime(v)), n - 1))
  }

  lemma {:induction false} SqrBitsScale(b: Gf, v: Gf, n: nat)
    ensures SqrBits(b, XTime(XTime(v)), n) == XTime(XTime(SqrBits(b, v, n)))
    decreases n
  {
    if n == 0 {
    } else {
      hide XTime, Half, Pick, Add;
      var t, r := XTime(v), SqrBits(Half(b), XTime(XTime(v)), n - 1);
      SqrBitsScale(Half(b), XTime(t), n - 1);
      XTimePick(b, v);
      XTimePick(b, t);
      XTimeAdd(Pick(b, v), r);
      XTimeAdd(Pick(b, t), XTime(r));
    }
  }

  lemma PickTwice(b: Gf)
    ensures Pick(b, Pick(b, ONE)) == Pick(b, ONE)
  {}

  lemma SqrSplit(b: Gf)
    ensures Sqr(b) == Add(Pick(b, ONE), XTime(XTime(Sqr(Half(b)))))
  {
    hide XTime, Half, Add, Mul, Pick;
    var h := Half(b);
    SplitLow(b);
    SqrAdd(Pick(b, ONE), XTime(h));
    MulXTime(h, XTime(h));
    MulComm(h, XTime(h));
    MulXTime(h, h);
    MulPick(b, Pick(b, ONE));
    PickTwice(b);
  }

  lemma {:induction false} SqrIsLinear(b: Gf, n: nat)
    requires FitsBits(b, n)
    ensures Sqr(b) == SqrBits(b, ONE, n)
    decreases n
  {
    hide XTime, Half, Add, Mul, Pick;
    if n == 0 {
      MulZero(ZERO);
    } else {
      SqrIsLinear(Half(b), n - 1);
      SqrSplit(b);
      SqrBitsScale(Half(b), ONE, n - 1);
    }
  }

  function SqrLinear(b: Gf): Gf {
    var h1 := Half(b); var h2 := Half(h1); var h3 := Half(h2); var h4 := Half(h3);
    var h5 := Half(h4); var h6 := Half(h5); var h7 := Half(h6);
    Add(Pick(b, ONE), Add(Pick(h1, Gf(0x04)), Add(Pick(h2, Gf(0x10)), Add(Pick(h3, Gf(0x40)),
      Add(Pick(h4, Gf(0x4D)), Add(Pick(h5, Gf(0x79)), Add(Pick(h6, Gf(0xA9)), Pick(h7, Gf(0x3E)))))))))
  }

  lemma FourPowers()
    ensures XTime(XTime(ONE)) == Gf(0x04) && XTime(XTime(Gf(0x04))) == Gf(0x10)
    ensures XTime(XTime(Gf(0x10))) == Gf(0x40) && XTime(XTime(Gf(0x40))) == Gf(0x4D)
    ensures XTime(XTime(Gf(0x4D))) == Gf(0x79) && XTime(XTime(Gf(0x79))) == Gf(0xA9)
    ensures XTime(XTime(Gf(0xA9))) == Gf(0x3E)
  {}

  lemma SqrFlat(b: Gf)
    ensures Sqr(b) == SqrLinear(b)
  {
    FitsByte(b);
    SqrIsLinear(b, 8);
    hide XTime, Half, Mul, FitsBits, Pick, Add;
    FourPowers();
    var h1 := Half(b); var h2 := Half(h1); var h3 := Half(h2); var h4 := Half(h3);
    var h5 := Half(h4); var h6 := Half(h5); var h7 := Half(h6);
    AddZero(Pick(h7, Gf(0x3E)));
    assert SqrBits(h7, Gf(0x3E), 1) == Pick(h7, Gf(0x3E));
    assert SqrBits(h5, Gf(0x79), 3) == Add(Pick(h5, Gf(0x79)), Add(Pick(h6, Gf(0xA9)), Pick(h7, Gf(0x3E))));
    assert SqrBits(h3, Gf(0x40), 5) == Add(Pick(h3, Gf(0x40)), Add(Pick(h4, Gf(0x4D)), SqrBits(h5, Gf(0x79), 3)));
    assert SqrBits(h1, Gf(0x04), 7) == Add(Pick(h1, Gf(0x04)), Add(Pick(h2, Gf(0x10)), SqrBits(h3, Gf(0x40), 5)));
  }

  lemma IdempotentLinear(e: Gf)
    requires SqrLinear(e) == e
    ensures e == ZERO || e == ONE
  {}

  lemma TwoSquares()
    ensures SqrLinear(TWO) == Gf(0x04) && SqrLinear(Gf(0x04)) == Gf(0x10)
    ensures SqrLinear(Gf(0x10)) == Gf(0x4D) && SqrLinear(Gf(0x4D)) == Gf(0xF8)
    ensures SqrLinear(Gf(0xF8)) == Gf(0xE3) && SqrLinear(Gf(0xE3)) == Gf(0xEB)
    ensures SqrLinear(Gf(0xEB)) == Gf(0xAB) && SqrLinear(Gf(0xAB)) == TWO
  {}

  lemma {:induction false} FrobeniusMaps(a: Gf, b: Gf, n: nat)
    ensures Frobenius(Add(a, b), n) == Add(Frobenius(a, n), Frobenius(b, n))
    ensures Frobenius(Mul(a, b), n) == Mul(Frobenius(a, n), Frobenius(b, n))
    decreases n
  {
    hide Sqr, Add, Mul;
    if n > 0 {
      SqrAdd(a, b);
      SqrMul(a, b);
      FrobeniusMaps(Sqr(a), Sqr(b), n - 1);
    }
  }

  lemma FrobeniusTwo()
    ensures Frobenius(TWO, 8) == TWO
  {
    SqrFlat(TWO); SqrFlat(Gf(0x04)); SqrFlat(Gf(0x10)); SqrFlat(Gf(0x4D));
    SqrFlat(Gf(0xF8)); SqrFlat(Gf(0xE3)); SqrFlat(Gf(0xEB)); SqrFlat(Gf(0xAB));
    TwoSquares();
    hide Sqr, SqrLinear;
    assert Frobenius(Gf(0xEB), 2) == TWO;
    assert Frobenius(Gf(0xF8), 4) == TWO;
    assert Frobenius(Gf(0x10), 6) == TWO;
  }

  lemma XTimeIsTwo(b: Gf)
    ensures XTime(b) == Mul(TWO, b)
  {
    assert TWO == XTime(ONE);
    hide XTime, Mul;
    MulXTime(ONE, b);
    MulOne(b);
  }

  lemma {:induction false} FrobeniusZeroOne(n: nat)
    ensures Frobenius(ZERO, n) == ZERO && Frobenius(ONE, n) == ONE
    decreases n
  {
    hide Mul;
    MulZero(ZERO);
    MulOne(ONE);
    if n > 0 {
      FrobeniusZeroOne(n - 1);
    }
  }

  // a^256 == a: the Frobenius map fixes 2, hence every bit, hence every byte.
  lemma {:induction false} FrobeniusFixes(b: Gf, n: nat)
    requires FitsBits(b, n)
    ensures Frobenius(b, 8) == b
    decreases n
  {
    hide Frobenius, XTime, Half, Pick, Add, Mul;
    FrobeniusZeroOne(8);
    if n > 0 {
      FrobeniusFixes(Half(b), n - 1);
      SplitLow(b);
      XTimeIsTwo(Half(b));
      FrobeniusTwo();
      FrobeniusMaps(TWO, Half(b), 8);
      FrobeniusMaps(Pick(b, ONE), XTime(Half(b)), 8);
      PickBit(b);
    }
  }

  lemma PickBit(b: Gf)
    ensures Pick(b, ONE) == ZERO || Pick(b, ONE) == ONE
  {}

  // a^254 == a^2 * a^4 * ... * a^128.
  function InvChain(a: Gf, n: nat): Gf
    decreases n
  {
    if n == 0 then ONE else Mul(Sqr(a), InvChain(Sqr(a), n - 1))
  }

  function Inv(a: Gf): Gf { InvChain(a, 7) }

  lemma {:induction false} InvChainTelescopes(a: Gf, n: nat)
    ensures Mul(a, Mul(a, InvChain(a, n))) == Frobenius(a, n + 1)
    decreases n
  {
    hide Mul;
    var s := Sqr(a);
    if n == 0 {
      MulOne(a);
      assert Frobenius(a, 1) == Frobenius(s, 0);
    } else {
      MulAssoc(a, a, Mul(s, InvChain(s, n - 1)));
      InvChainTelescopes(s, n - 1);
    }
  }

  lemma MulInv(a: Gf)
    requires a != ZERO
    ensures Mul(a, Inv(a)) == ONE
  {
    hide Mul, Inv, InvChain, Frobenius, SqrLinear;
    var e := Mul(a, Inv(a));
    InverseProduct(a);
    assert Mul(a, e) == a;
    MulAssoc(Inv(a), a, e);
    MulComm(Inv(a), a);
    assert Sqr(e) == e;
    SqrFlat(e);
    IdempotentLinear(e);
    MulZero(a);
  }

  lemma InverseProduct(a: Gf)
    ensures Mul(a, Mul(a, Inv(a))) == a
  {
    hide Mul, Frobenius, FitsBits;
    InvChainTelescopes(a, 7);
    FitsByte(a);
    FrobeniusFixes(a, 8);
  }

  function Div(a: Gf, b: Gf): Gf { Mul(a, Inv(b)) }

  lemma DivMul(a: Gf, b: Gf)
    requires b != ZERO
    ensures Mul(Div(a, b), b) == a
  {
    hide Mul, Inv;
    MulInv(b);
    MulAssoc(a, Inv(b), b);
    MulComm(Inv(b), b);
    MulOne(a);
  }

  lemma NoZeroDivisors(a: Gf, b: Gf)
    requires Mul(a, b) == ZERO
    ensures a == ZERO || b == ZERO
  {
    hide Mul, Inv;
    if a != ZERO {
      MulInv(a);
      MulComm(a, Inv(a));
      MulAssoc(Inv(a), a, b);
      MulZero(Inv(a));
      MulOne(b);
    }
  }
}
