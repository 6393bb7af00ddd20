// Column (packet) numbers: they count the packets sent, modulo 2^22.
module Columns {
  const COLUMN_PERIOD: nat := 0x400000
  const LANE_COUNT: nat := 8
  const SUM_COUNT: nat := 3

  predicate IsColumnDeltaNegative(delta: nat) {
    delta >= COLUMN_PERIOD / 2
  }

  // The source subtracts 32-bit unsigned numbers, which 2^22 divides.
  function SubtractColumns(a: nat, b: nat): nat {
    (a - b) % COLUMN_PERIOD
  }

  function AddColumns(a: nat, b: nat): nat {
    (a + b) % COLUMN_PERIOD
  }

  // The column number of the n-th packet sent.
  function Wrap(n: nat): (column: nat)
    ensures column < COLUMN_PERIOD
  {
    n % COLUMN_PERIOD
  }

  lemma SubtractWrapped(a: nat, b: nat)
    requires b <= a < b + COLUMN_PERIOD
    ensures SubtractColumns(Wrap(a), Wrap(b)) == a - b
  {
    SameResidue(Wrap(a) - Wrap(b), a - b, a / COLUMN_PERIOD - b / COLUMN_PERIOD);
  }

  // A column behind b, by at most half a period, gives a negative delta.
  lemma SubtractBehind(a: nat, b: nat)
    requires a < b <= a + COLUMN_PERIOD / 2
    ensures IsColumnDeltaNegative(SubtractColumns(Wrap(a), Wrap(b)))
  {
    var d := COLUMN_PERIOD - (b - a);
    SameResidue(Wrap(a) - Wrap(b), d, a / COLUMN_PERIOD - b / COLUMN_PERIOD + 1);
  }

  // By its column number a packet is judged rightly to be behind b or not exactly
  // as long as it is less than half a period ahead of b, or no more than that behind.
  lemma JudgedRightly(a: nat, b: nat)
    requires a < b + COLUMN_PERIOD && b <= a + COLUMN_PERIOD
    ensures (IsColumnDeltaNegative(SubtractColumns(Wrap(a), Wrap(b))) <==> a < b) <==> a < b + COLUMN_PERIOD / 2 && b <= a + COLUMN_PERIOD / 2
  {
    var q, d := a / COLUMN_PERIOD - b / COLUMN_PERIOD, a - b;
    if b <= a {
      SameResidue(Wrap(a) - Wrap(b), d, q);
    } else {
      SameResidue(Wrap(a) - Wrap(b), d + COLUMN_PERIOD, q + 1);
    }
  }

  lemma SameResidue(x: int, d: int, q: int)
    requires d == x + q * COLUMN_PERIOD && 0 <= d < COLUMN_PERIOD
    ensures x % COLUMN_PERIOD == d
  {}

  lemma AddWrapped(a: nat, b: nat)
    ensures AddColumns(a, Wrap(b)) == Wrap(a + b) == AddColumns(Wrap(b), a)
  {}

  // Lanes and Cauchy columns survive the wrap-around.
  lemma WrapLane(n: nat)
    ensures Wrap(n) % LANE_COUNT == n % LANE_COUNT
    ensures Wrap(n) % 64 == n % 64
  {
    var q, x := n / COLUMN_PERIOD, Wrap(n);
    assert n == x + q * COLUMN_PERIOD;
    assert q * COLUMN_PERIOD == 0x10000 * q * 64 == 0x80000 * q * 8;
    EighthsLeft(x, 0x80000 * q);
    SixtyFourthsLeft(x, 0x10000 * q);
  }

  lemma EighthsLeft(x: nat, k: nat)
    ensures (x + k * 8) % 8 == x % 8
  {}

  lemma SixtyFourthsLeft(x: nat, k: nat)
    ensures (x + k * 64) % 64 == x % 64
  {}
}
