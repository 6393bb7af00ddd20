// The matrix the code is defined by: coefficient of each column in each
// recovery row, as a function of the recovery metadata only.
module Coefficients {
  import opened Columns
  import opened Gf256
  import opened LinearAlgebra

  const CAUCHY_THRESHOLD: nat := 64
  const CAUCHY_MAX_COLUMNS: nat := 64
  const CAUCHY_MAX_ROWS: nat := 192
  const PAIR_ADD_RATE: nat := 16
  const ROW_PERIOD: nat := 255
  const MAX_PACKETS: nat := 16000

  // sumCount columns from columnStart on are summed; the light (LDPC) columns
  // are the last ldpcCount of them.
  datatype Metadata = Metadata(row: nat, columnStart: nat, sumCount: nat, ldpcCount: nat)

  // Output number k of the generator both sides seed with (row, ldpcCount).
  type Draws = (nat, nat, nat) -> nat

  function GetColumnValue(column: nat): Gf {
    Byte(3 + (column * 199) % 253)
  }

  function GetRowValue(row: nat): Gf {
    Byte(1 + (row + 1) % 255)
  }

  function Int32Hash(key: bv32): bv32 {
    var k1 := key + !(key << 15);
    var k2 := k1 ^ (k1 >> 10);
    var k3 := k2 + (k2 << 3);
    var k4 := k3 ^ (k3 >> 6);
    var k5 := k4 + !(k4 << 11);
    k5 ^ (k5 >> 16)
  }

  function GetRowOpcode(lane: nat, row: nat): bv32
    requires lane < LANE_COUNT && row < 256
  {
    var opcode := Int32Hash((lane + (row + 3) * LANE_COUNT) as bv32) & 0x3F;
    if opcode == 0 then 0x10 else opcode
  }

  // Does row `row` add running sum s of a lane, directly (s < 3) or into the
  // product with the row value (s - 3)?
  predicate OpcodeBit(lane: nat, row: nat, s: nat)
    requires lane < LANE_COUNT && row < 256 && s < 6
  {
    GetRowOpcode(lane, row) & ([1, 2, 4, 8, 16, 32][s]) != 0
  }

  function CauchyElement(row: nat, column: nat): Gf
    requires row < CAUCHY_MAX_ROWS && column < CAUCHY_MAX_COLUMNS
  {
    Inv(Add(Byte(row + CAUCHY_MAX_COLUMNS), Byte(column)))
  }

  // The factor running sum s applies to a column: 1, CX or CX^2.
  function ColumnPower(column: nat, s: nat): Gf {
    var cx := GetColumnValue(column);
    if s == 0 then ONE else if s == 1 then cx else Mul(cx, cx)
  }

  function When(b: bool, v: Gf): Gf {
    if b then v else ZERO
  }

  function DenseHalf(lane: nat, row: nat, column: nat, base: nat): Gf
    requires lane < LANE_COUNT && row < 256 && base <= 3
  {
    Add(Add(When(OpcodeBit(lane, row, base), ColumnPower(column, 0)),
            When(OpcodeBit(lane, row, base + 1), ColumnPower(column, 1))),
            When(OpcodeBit(lane, row, base + 2), ColumnPower(column, 2)))
  }

  function DenseCoefficient(row: nat, column: nat): Gf
    requires row < 256
  {
    var lane := column % LANE_COUNT;
    Add(DenseHalf(lane, row, column, 0), Mul(GetRowValue(row), DenseHalf(lane, row, column, 3)))
  }

  // One pair for each 16 light columns or part of them.
  function PairCount(ldpcCount: nat): (pairs: nat)
    ensures PAIR_ADD_RATE * (pairs - 1) < ldpcCount <= PAIR_ADD_RATE * pairs
  {
    (ldpcCount + PAIR_ADD_RATE - 1) / PAIR_ADD_RATE
  }

  function Draw(raw: Draws, row: nat, count: nat, k: nat): (d: nat)
    requires count > 0
    ensures d < count && raw(row, count, k) == raw(row, count, k) / count * count + d
  {
    raw(row, count, k) % count
  }

  // Light column t is picked once per hit among the first n pairs.
  function LightCoefficient(raw: Draws, row: nat, count: nat, t: nat, n: nat): Gf
    requires count > 0
  {
    if n == 0 then ZERO
    else Add(LightCoefficient(raw, row, count, t, n - 1),
             Add(When(Draw(raw, row, count, 2 * n - 2) == t, ONE),
                 When(Draw(raw, row, count, 2 * n - 1) == t, GetRowValue(row))))
  }

  predicate ValidMetadata(m: Metadata) {
    && m.columnStart < COLUMN_PERIOD && 1 <= m.ldpcCount <= m.sumCount <= MAX_PACKETS
    && (m.sumCount > CAUCHY_THRESHOLD ==> m.row < ROW_PERIOD)
    && (m.sumCount <= CAUCHY_THRESHOLD ==> m.row <= CAUCHY_MAX_ROWS && m.ldpcCount == m.sumCount)
  }

  // Coefficient of the column at offset i of the row's range.
  function Coefficient(raw: Draws, m: Metadata, i: nat): Gf
    requires ValidMetadata(m) && i < m.sumCount
  {
    var column := AddColumns(m.columnStart, i);
    if m.sumCount <= CAUCHY_THRESHOLD then
      if m.row == 0 then ONE else CauchyElement(m.row - 1, column % CAUCHY_MAX_COLUMNS)
    else
      var light := m.sumCount - m.ldpcCount;
      Add(DenseCoefficient(m.row, column),
          if i < light then ZERO else LightCoefficient(raw, m.row, m.ldpcCount, i - light, PairCount(m.ldpcCount)))
  }

  function CoefficientRow(raw: Draws, m: Metadata): (r: Row)
    requires ValidMetadata(m)
    ensures |r| == m.sumCount
  {
    seq(m.sumCount, i requires 0 <= i < m.sumCount => Coefficient(raw, m, i))
  }
}
