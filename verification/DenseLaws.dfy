// What the values are that the dense part of a Siamese row is made from, and
// when they tell two packets apart.
module DenseLaws {
  import opened Columns
  import opened Gf256
  import opened Coefficients

  // ---- column values ----

  // 199 is prime to 253: 89 * 199 == 70 * 253 + 1.
  lemma PrimeStep(d: int, q: int)
    requires d * 199 == 253 * q
    ensures d == 253 * (89 * q - 70 * d)
  {}

  lemma StepsApart(x: nat, y: nat, d: int)
    requires (x * 199) % 253 == (y * 199) % 253 && y == x + d
    ensures d % 253 == 0
  {
    PrimeStep(d, (y * 199) / 253 - (x * 199) / 253);
  }

  lemma SameColumnValue(x: nat, y: nat)
    ensures GetColumnValue(x) == GetColumnValue(y) <==> (x * 199) % 253 == (y * 199) % 253
  {
    hide Byte;
    if (x * 199) % 253 != (y * 199) % 253 {
      ByteInjective(3 + (x * 199) % 253, 3 + (y * 199) % 253);
    }
  }

  // The 253 values 3 to 255 are gone through in turn: no two columns less than
  // 253 apart have the same.
  lemma ColumnValuesDiffer(x: nat, y: nat)
    requires x < y < x + 253
    ensures GetColumnValue(x) != GetColumnValue(y)
  {
    hide GetColumnValue;
    SameColumnValue(x, y);
    if GetColumnValue(x) == GetColumnValue(y) {
      StepsApart(x, y, y - x);
    }
  }

  // Any 253 columns in succession have every one of these values.
  lemma ColumnValueReached(x: nat, v: nat) returns (k: nat)
    requires 3 <= v < 256
    ensures k < 253 && GetColumnValue(x + k) == Byte(v)
  {
    hide Byte;
    var u := v - 3 - x * 199;
    k := (89 * u) % 253;
    var q := (89 * u) / 253;
    var p := 70 * u - 199 * q;
    assert k * 199 == u + 253 * p;
    assert (x + k) * 199 == v - 3 + 253 * p;
    Residue((x + k) * 199, v - 3, p);
  }

  lemma Residue(n: int, r: nat, p: int)
    requires n == r + 253 * p && r < 253
    ensures n % 253 == r
  {}

  // No column value is 0, 1 or 2.
  lemma ColumnValueRange(x: nat)
    ensures GetColumnValue(x) !in {Byte(0), Byte(1), Byte(2)}
  {
    hide Byte;
    forall v: nat | v < 3 ensures GetColumnValue(x) != Byte(v) {
      ByteInjective(3 + (x * 199) % 253, v);
    }
  }

  // Packets less than 253 apart: only where the column numbers start over do two
  // of them, 70 apart, share their value, as 2^22 leaves 70 modulo 253.
  lemma PacketValuesDiffer(a: nat, b: nat)
    requires a < b < a + 253
    ensures GetColumnValue(Wrap(a)) == GetColumnValue(Wrap(b)) <==> b == a + 70 && Wrap(b) < Wrap(a)
  {
    hide GetColumnValue;
    var x, y, q := Wrap(a), Wrap(b), b / COLUMN_PERIOD - a / COLUMN_PERIOD;
    assert b - a == y - x + q * COLUMN_PERIOD;
    SameColumnValue(x, y);
    if x < y {
      assert q == 0;
      ColumnValuesDiffer(x, y);
    } else {
      assert q == 1;
      if GetColumnValue(x) == GetColumnValue(y) {
        StepsApart(x, y, y - x);
        SeventyLeft(b - a, y - x);
      } else if b == a + 70 {
        Residue(x * 199, (y * 199) % 253, (y * 199) / 253 + 199 * 16578);
      }
    }
  }

  lemma SeventyLeft(d: nat, e: int)
    requires 0 < d < 253 && d == e + COLUMN_PERIOD && e % 253 == 0
    ensures d == 70
  {}

  // Two packets of one lane are never 70 apart.
  lemma LaneValuesDiffer(a: nat, b: nat)
    requires a < b < a + 253 && a % LANE_COUNT == b % LANE_COUNT
    ensures GetColumnValue(Wrap(a)) != GetColumnValue(Wrap(b))
  {
    hide GetColumnValue, Wrap;
    PacketValuesDiffer(a, b);
  }

  // ---- row values ----

  // The 255 values 1 to 255 are gone through in turn.
  lemma RowValuesDiffer(r: nat, s: nat)
    requires r < s < r + 255
    ensures GetRowValue(r) != GetRowValue(s)
  {
    hide Byte;
    ByteInjective(1 + (r + 1) % 255, 1 + (s + 1) % 255);
  }

  lemma RowValueReached(r: nat, v: nat) returns (k: nat)
    requires 0 < v < 256
    ensures k < 255 && GetRowValue(r + k) == Byte(v)
  {
    hide Byte;
    k := (v - 2 - r) % 255;
    RowResidue(r + k + 1, v - 1, -((v - 2 - r) / 255));
  }

  lemma RowResidue(n: int, r: nat, p: int)
    requires n == r + 255 * p && r < 255
    ensures n % 255 == r
  {
  }

  lemma ZeroByte()
    ensures Byte(0) == ZERO && Byte(1) == ONE
  {
    assert Digits(0) == 0;
  }

  lemma RowValueNonZero(r: nat)
    ensures GetRowValue(r) != ZERO
  {
    hide Byte;
    ZeroByte();
    ByteInjective(1 + (r + 1) % 255, 0);
  }

  // ---- opcodes ----

  // An opcode is its six bits, and one of them is set.
  lemma OpcodeBits(lane: nat, row: nat)
    requires lane < LANE_COUNT && row < ROW_PERIOD
    ensures GetRowOpcode(lane, row)
            == Flag(lane, row, 0, 1) | Flag(lane, row, 1, 2) | Flag(lane, row, 2, 4)
               | Flag(lane, row, 3, 8) | Flag(lane, row, 4, 16) | Flag(lane, row, 5, 32)
    ensures exists s: nat :: s < 6 && OpcodeBit(lane, row, s)
  {
    assert OpcodeBit(lane, row, 0) || OpcodeBit(lane, row, 1) || OpcodeBit(lane, row, 2)
        || OpcodeBit(lane, row, 3) || OpcodeBit(lane, row, 4) || OpcodeBit(lane, row, 5);
  }

  function Flag(lane: nat, row: nat, s: nat, v: bv32): bv32
    requires lane < LANE_COUNT && row < ROW_PERIOD && s < 6
  {
    if OpcodeBit(lane, row, s) then v else 0
  }

  // The hash's low bits of the first row, and for each lane of a row that takes
  // in the lane's sum 1 and not its sum 2. Two of these are zero.
  lemma FirstHashes()
    ensures Int32Hash(24) & 0x3F == 23 && Int32Hash(25) & 0x3F == 54 && Int32Hash(26) & 0x3F == 36 && Int32Hash(27) & 0x3F == 54
    ensures Int32Hash(28) & 0x3F == 56 && Int32Hash(29) & 0x3F == 48 && Int32Hash(30) & 0x3F == 41 && Int32Hash(31) & 0x3F == 2
  {}

  lemma TellingHashes()
    ensures Int32Hash(80) & 0x3F == 11 && Int32Hash(121) & 0x3F == 0 && Int32Hash(162) & 0x3F == 3 && Int32Hash(75) & 0x3F == 24
    ensures Int32Hash(204) & 0x3F == 0 && Int32Hash(101) & 0x3F == 24 && Int32Hash(78) & 0x3F == 16
  {}

  lemma FirstOpcodes()
    ensures GetRowOpcode(0, 0) == 23 && GetRowOpcode(1, 0) == 54 && GetRowOpcode(2, 0) == 36 && GetRowOpcode(3, 0) == 54
    ensures GetRowOpcode(4, 0) == 56 && GetRowOpcode(5, 0) == 48 && GetRowOpcode(6, 0) == 41 && GetRowOpcode(7, 0) == 2
  {
    hide Int32Hash;
    FirstHashes();
  }

  lemma TellingOpcodes()
    ensures GetRowOpcode(0, 7) == 11 && GetRowOpcode(2, 17) == 3 && GetRowOpcode(3, 6) == 24
  {
    hide Int32Hash;
    TellingHashes();
  }

  lemma TellingOpcodesRest()
    ensures GetRowOpcode(5, 9) == 24 && GetRowOpcode(6, 6) == 16
  {
    hide Int32Hash;
    TellingHashes();
  }

  lemma ZeroOpcodes()
    ensures GetRowOpcode(1, 12) == 16 && GetRowOpcode(4, 22) == 16
  {
    hide Int32Hash;
    TellingHashes();
  }

  // ---- dense coefficients ----

  // What a row multiplies a lane's sum s with.
  function Weight(row: nat, lane: nat, s: nat): Gf
    requires lane < LANE_COUNT && row < ROW_PERIOD && s < SUM_COUNT
  {
    Add(When(OpcodeBit(lane, row, s), ONE), Mul(GetRowValue(row), When(OpcodeBit(lane, row, s + 3), ONE)))
  }

  lemma ByWeights(b0: bool, b1: bool, b2: bool, b3: bool, b4: bool, b5: bool, rx: Gf, c: Gf, d: Gf)
    ensures Add(Add(Add(When(b0, ONE), When(b1, c)), When(b2, d)), Mul(rx, Add(Add(When(b3, ONE), When(b4, c)), When(b5, d))))
            == Add(Add(Add(When(b0, ONE), Mul(rx, When(b3, ONE))), Mul(Add(When(b1, ONE), Mul(rx, When(b4, ONE))), c)),
                   Mul(Add(When(b2, ONE), Mul(rx, When(b5, ONE))), d))
  {
    hide Add, Mul;
    MulDistR(rx, Add(When(b3, ONE), When(b4, c)), When(b5, d));
    MulDistR(rx, When(b3, ONE), When(b4, c));
    WeightTimes(b1, b4, rx, c);
    WeightTimes(b2, b5, rx, d);
    var p, q, r, u, v, w := When(b0, ONE), When(b1, c), When(b2, d), Mul(rx, When(b3, ONE)), Mul(rx, When(b4, c)), Mul(rx, When(b5, d));
    AddSwap(Add(p, q), r, Add(u, v), w);
    AddSwap(p, q, u, v);
  }

  lemma WeightTimes(b: bool, e: bool, rx: Gf, c: Gf)
    ensures Mul(Add(When(b, ONE), Mul(rx, When(e, ONE))), c) == Add(When(b, c), Mul(rx, When(e, c)))
  {
    hide Add, Mul;
    MulDistL(When(b, ONE), Mul(rx, When(e, ONE)), c);
    OneWhen(b, c);
    OneWhen(e, c);
    MulAssoc(rx, When(e, ONE), c);
  }

  lemma OneWhen(b: bool, c: Gf)
    ensures Mul(When(b, ONE), c) == When(b, c)
  {
    hide Mul;
    MulOne(c);
    MulComm(ONE, c);
    MulZero(c);
    MulComm(ZERO, c);
  }

  // A dense coefficient is the lane's weights applied to 1, the column's value
  // and its square.
  lemma DenseQuadratic(row: nat, column: nat)
    requires row < ROW_PERIOD
    ensures var lane, cx := column % LANE_COUNT, GetColumnValue(column);
            DenseCoefficient(row, column)
            == Add(Add(Weight(row, lane, 0), Mul(Weight(row, lane, 1), cx)), Mul(Weight(row, lane, 2), Sqr(cx)))
  {
    hide Add, Mul, OpcodeBit, GetColumnValue, GetRowValue;
    var lane, cx := column % LANE_COUNT, GetColumnValue(column);
    ByWeights(OpcodeBit(lane, row, 0), OpcodeBit(lane, row, 1), OpcodeBit(lane, row, 2),
              OpcodeBit(lane, row, 3), OpcodeBit(lane, row, 4), OpcodeBit(lane, row, 5), GetRowValue(row), cx, Mul(cx, cx));
  }

  lemma Difference(p: Gf, q: Gf, r: Gf, c: Gf, d: Gf)
    ensures Add(Add(Add(p, Mul(q, c)), Mul(r, Sqr(c))), Add(Add(p, Mul(q, d)), Mul(r, Sqr(d))))
            == Mul(Add(q, Mul(r, Add(c, d))), Add(c, d))
  {
    hide Add, Mul, Sqr;
    var e := Add(c, d);
    AddSwap(Add(p, Mul(q, c)), Mul(r, Sqr(c)), Add(p, Mul(q, d)), Mul(r, Sqr(d)));
    AddSwap(p, Mul(q, c), p, Mul(q, d));
    AddSelf(p);
    AddComm(ZERO, Add(Mul(q, c), Mul(q, d)));
    AddZero(Add(Mul(q, c), Mul(q, d)));
    MulDistR(q, c, d);
    MulDistR(r, Sqr(c), Sqr(d));
    SqrAdd(c, d);
    SquareTimes(r, e);
    MulDistL(q, Mul(r, e), e);
  }

  lemma SquareTimes(r: Gf, e: Gf)
    ensures Mul(r, Sqr(e)) == Mul(Mul(r, e), e)
  {
    hide Mul;
    MulAssoc(r, e, e);
  }

  lemma SumZero(a: Gf, b: Gf)
    ensures Add(a, b) == ZERO <==> a == b
  {
    hide Add;
    AddSelf(a);
    AddCancel(a, b);
    AddZero(a);
  }

  // Two columns of one lane with different values: a row tells them apart exactly
  // if what it multiplies sum 1 with differs from what it multiplies sum 2 with,
  // times the sum of the two values.
  lemma DenseDiffers(row: nat, x: nat, y: nat)
    requires row < ROW_PERIOD && x % LANE_COUNT == y % LANE_COUNT && GetColumnValue(x) != GetColumnValue(y)
    ensures var lane, e := x % LANE_COUNT, Add(GetColumnValue(x), GetColumnValue(y));
            DenseCoefficient(row, x) != DenseCoefficient(row, y) <==> Weight(row, lane, 1) != Mul(Weight(row, lane, 2), e)
  {
    hide Add, Mul, GetColumnValue, DenseCoefficient, Weight, Sqr;
    var lane, c, d := x % LANE_COUNT, GetColumnValue(x), GetColumnValue(y);
    var p, q, r := Weight(row, lane, 0), Weight(row, lane, 1), Weight(row, lane, 2);
    DenseQuadratic(row, x);
    DenseQuadratic(row, y);
    Difference(p, q, r, c, d);
    SumZero(DenseCoefficient(row, x), DenseCoefficient(row, y));
    SumZero(c, d);
    SumZero(q, Mul(r, Add(c, d)));
    MulComm(Add(q, Mul(r, Add(c, d))), Add(c, d));
    MulZero(Add(c, d));
    if Mul(Add(q, Mul(r, Add(c, d))), Add(c, d)) == ZERO {
      NoZeroDivisors(Add(q, Mul(r, Add(c, d))), Add(c, d));
    }
  }

  // A row that takes in just one of a lane's sums 1 and 2 gives any two of the
  // lane's packets less than 253 apart different dense coefficients.
  lemma OneSumTellsApart(row: nat, a: nat, b: nat)
    requires row < ROW_PERIOD && a < b < a + 253 && a % LANE_COUNT == b % LANE_COUNT
    requires var lane := a % LANE_COUNT; Weight(row, lane, 1) == ZERO <==> Weight(row, lane, 2) != ZERO
    ensures DenseCoefficient(row, Wrap(a)) != DenseCoefficient(row, Wrap(b))
  {
    hide Add, Mul, GetColumnValue, DenseCoefficient, Weight, Wrap;
    WrapLane(a);
    WrapLane(b);
    LaneValuesDiffer(a, b);
    DenseDiffers(row, Wrap(a), Wrap(b));
    var r, e := Weight(row, a % LANE_COUNT, 2), Add(GetColumnValue(Wrap(a)), GetColumnValue(Wrap(b)));
    SumZero(GetColumnValue(Wrap(a)), GetColumnValue(Wrap(b)));
    if Mul(r, e) == ZERO {
      NoZeroDivisors(r, e);
    }
    MulZero(e);
    MulComm(r, e);
  }

  // Such a row there is in every lane.
  lemma SomeRowTellsApart(a: nat, b: nat) returns (row: nat)
    requires a < b < a + 253 && a % LANE_COUNT == b % LANE_COUNT
    ensures row < ROW_PERIOD && DenseCoefficient(row, Wrap(a)) != DenseCoefficient(row, Wrap(b))
  {
    hide Add, Mul, GetRowOpcode, GetRowValue, DenseCoefficient, Wrap;
    var lane := a % LANE_COUNT;
    row := TellingRow(lane);
    TellingBits(lane);
    TellingWeights(row, lane);
    OneSumTellsApart(row, a, b);
  }

  function TellingRow(lane: nat): (row: nat)
    ensures row < ROW_PERIOD - 1
  {
    if lane < LANE_COUNT then [7, 12, 17, 6, 22, 9, 6, 0][lane] else 0
  }

  lemma TellingBits(lane: nat)
    requires lane < LANE_COUNT
    ensures var row := TellingRow(lane); OpcodeBit(lane, row, 1) != OpcodeBit(lane, row, 4) && !OpcodeBit(lane, row, 2) && !OpcodeBit(lane, row, 5)
  {
    hide GetRowOpcode;
    TellingOpcodes();
    TellingOpcodesRest();
    ZeroOpcodes();
    FirstOpcodes();
  }

  lemma TellingWeights(row: nat, lane: nat)
    requires row < ROW_PERIOD && lane < LANE_COUNT
    requires OpcodeBit(lane, row, 1) != OpcodeBit(lane, row, 4) && !OpcodeBit(lane, row, 2) && !OpcodeBit(lane, row, 5)
    ensures Weight(row, lane, 1) != ZERO && Weight(row, lane, 2) == ZERO
  {
    hide Add, Mul, OpcodeBit, GetRowValue;
    var rx := GetRowValue(row);
    MulZero(rx);
    MulOne(rx);
    AddZero(ZERO);
    AddZero(ONE);
    AddComm(ZERO, rx);
    AddZero(rx);
    RowValueNonZero(row);
  }
}
