// The recovery packets an encoder has made, and which row each is made with.
module SentPackets {
  import opened Columns
  import opened Gf256
  import opened Coefficients
  import opened DenseLaws

  // What a recovery packet's metadata says, and the packet its range starts at.
  datatype Sent = Sent(metadata: Metadata, start: nat)

  predicate SiameseSent(s: Sent) {
    s.metadata.sumCount > CAUCHY_THRESHOLD
  }

  predicate CauchySent(s: Sent) {
    s.metadata.sumCount <= CAUCHY_THRESHOLD && s.metadata.row > 0
  }

  // A parity row; a copy of a single packet is none.
  predicate ParitySent(s: Sent) {
    1 < s.metadata.sumCount <= CAUCHY_THRESHOLD && s.metadata.row == 0
  }

  function SiameseCount(log: seq<Sent>): nat {
    if log == [] then 0 else SiameseCount(log[..|log| - 1]) + if SiameseSent(log[|log| - 1]) then 1 else 0
  }

  function CauchyCount(log: seq<Sent>): nat {
    if log == [] then 0 else CauchyCount(log[..|log| - 1]) + if CauchySent(log[|log| - 1]) then 1 else 0
  }

  // The packet past the range of the last parity row.
  function ParityEnd(log: seq<Sent>): nat {
    if log == [] then 0
    else
      var s := log[|log| - 1];
      if ParitySent(s) then s.start + s.metadata.sumCount else ParityEnd(log[..|log| - 1])
  }

  // Siamese rows 0 to 254 and Cauchy rows 1 to 192 are taken in turn, and a parity
  // row protects nothing the last one did.
  predicate Follows(before: seq<Sent>, s: Sent) {
    && (SiameseSent(s) ==> s.metadata.row == SiameseCount(before) % 255)
    && (CauchySent(s) ==> s.metadata.row == CauchyCount(before) % 192 + 1)
    && (ParitySent(s) ==> ParityEnd(before) <= s.start)
  }

  predicate InTurn(log: seq<Sent>) {
    forall i :: 0 <= i < |log| ==> Follows(log[..i], log[i])
  }

  // The encoder's counters after these packets, when it has been given `given` packets.
  predicate Counted(log: seq<Sent>, row: nat, cauchyRow: nat, parityColumn: nat, given: nat) {
    && InTurn(log) && row == SiameseCount(log) % 255 && cauchyRow == CauchyCount(log) % 192
    && parityColumn == Wrap(ParityEnd(log)) && ParityEnd(log) <= given
  }

  lemma NoneCounted(given: nat)
    ensures Counted([], 0, 0, 0, given)
  {}

  lemma CountedLater(log: seq<Sent>, row: nat, cauchyRow: nat, parityColumn: nat, given: nat, later: nat)
    requires Counted(log, row, cauchyRow, parityColumn, given) && given <= later
    ensures Counted(log, row, cauchyRow, parityColumn, later)
  {
    hide InTurn;
  }

  lemma InTurnSnoc(log: seq<Sent>, s: Sent)
    requires InTurn(log) && Follows(log, s)
    ensures InTurn(log + [s])
  {
    hide Follows;
    var next := log + [s];
    forall i | 0 <= i < |next| ensures Follows(next[..i], next[i]) {
      assert next[..i] == log[..i];
    }
    assert next[..|log|] == log;
  }

  lemma CountedSnoc(log: seq<Sent>, s: Sent)
    ensures SiameseCount(log + [s]) == SiameseCount(log) + if SiameseSent(s) then 1 else 0
    ensures CauchyCount(log + [s]) == CauchyCount(log) + if CauchySent(s) then 1 else 0
    ensures ParityEnd(log + [s]) == if ParitySent(s) then s.start + s.metadata.sumCount else ParityEnd(log)
  {
    assert (log + [s])[..|log|] == log;
  }

  lemma CountedOne(log: seq<Sent>, s: Sent, row: nat, cauchyRow: nat, parityColumn: nat, given: nat)
    requires Counted(log, row, cauchyRow, parityColumn, given)
    requires SiameseSent(s) ==> s.metadata.row == row
    requires CauchySent(s) ==> s.metadata.row == cauchyRow + 1
    requires ParitySent(s) ==> ParityEnd(log) <= s.start && s.start + s.metadata.sumCount <= given
    ensures Counted(log + [s],
                    if SiameseSent(s) then if row + 1 == 255 then 0 else row + 1 else row,
                    if CauchySent(s) then if cauchyRow + 1 == 192 then 0 else cauchyRow + 1 else cauchyRow,
                    if ParitySent(s) then Wrap(s.start + s.metadata.sumCount) else parityColumn, given)
  {
    hide Wrap, SiameseSent, CauchySent, ParitySent;
    CountedSnoc(log, s);
    InTurnSnoc(log, s);
    NextResidue(SiameseCount(log), 255);
    NextResidue(CauchyCount(log), 192);
  }

  lemma NextResidue(n: nat, p: nat)
    requires p == 255 || p == 192
    ensures (n + 1) % p == if n % p + 1 == p then 0 else n % p + 1
  {}

  // ---- when a parity row is due ----

  // The packets before `end`, where the last parity row stopped, are acknowledged; if
  // the window has gone on from there for longer, its distance modulo 2^22 is no more
  // than half of that, or so close to it that it is found among the acknowledged ones.
  predicate ParityDue(end: nat, base: nat, first: nat) {
    && end <= base + first
    && (base <= end || var late := (base - end) % COLUMN_PERIOD; late <= COLUMN_PERIOD / 2 || COLUMN_PERIOD - first <= late)
  }

  // Up to half a period past that end, a parity row is due exactly if all the last
  // one protects is acknowledged.
  lemma DueOnceAcknowledged(end: nat, base: nat, first: nat)
    ensures ParityDue(end, base, first) ==> end <= base + first
    ensures base <= end + COLUMN_PERIOD / 2 ==> (ParityDue(end, base, first) <==> end <= base + first)
  {}

  // Later it may not be: the window has gone on for just over half a period, all is
  // acknowledged, and the last parity row seems to stop ahead of it.
  lemma NotDueAnyMore()
    ensures !ParityDue(0, COLUMN_PERIOD / 2 + 8, 0)
  {}

  lemma DueByColumn(end: nat, base: nat, first: nat)
    requires end < base + COLUMN_PERIOD / 2 && first < COLUMN_PERIOD / 2
    ensures var e := SubtractColumns(Wrap(end), Wrap(base));
            e <= first || IsColumnDeltaNegative(e) <==> ParityDue(end, base, first)
  {
    var e, q := SubtractColumns(Wrap(end), Wrap(base)), end / COLUMN_PERIOD - base / COLUMN_PERIOD;
    assert Wrap(end) - Wrap(base) == end - base - q * COLUMN_PERIOD;
    if base <= end {
      SameResidue(Wrap(end) - Wrap(base), end - base, q);
    } else {
      var late, k := (base - end) % COLUMN_PERIOD, (base - end) / COLUMN_PERIOD;
      if late == 0 {
        SameResidue(Wrap(end) - Wrap(base), 0, q + k);
      } else {
        SameResidue(Wrap(end) - Wrap(base), COLUMN_PERIOD - late, q + k + 1);
      }
    }
  }

  // ---- different rows ----

  lemma {:induction false} CountsGrow(log: seq<Sent>, i: nat, j: nat)
    requires i <= j <= |log|
    ensures SiameseCount(log[..i]) <= SiameseCount(log[..j]) && CauchyCount(log[..i]) <= CauchyCount(log[..j])
    decreases j
  {
    if i < j {
      CountsGrow(log, i, j - 1);
      CountedNext(log, j - 1);
    }
  }

  lemma CountedNext(log: seq<Sent>, i: nat)
    requires i < |log|
    ensures SiameseCount(log[..i + 1]) == SiameseCount(log[..i]) + if SiameseSent(log[i]) then 1 else 0
    ensures CauchyCount(log[..i + 1]) == CauchyCount(log[..i]) + if CauchySent(log[i]) then 1 else 0
    ensures ParityEnd(log[..i + 1]) == if ParitySent(log[i]) then log[i].start + log[i].metadata.sumCount else ParityEnd(log[..i])
  {
    assert log[..i + 1] == log[..i] + [log[i]];
    CountedSnoc(log[..i], log[i]);
  }

  // Any 192 Cauchy packets in succession have different rows.
  lemma CauchyRowsDiffer(log: seq<Sent>, i: nat, j: nat)
    requires InTurn(log) && i < j < |log| && CauchySent(log[i]) && CauchySent(log[j])
    requires CauchyCount(log[..j]) < CauchyCount(log[..i]) + 192
    ensures log[i].metadata.row != log[j].metadata.row
  {
    hide CauchyCount, CauchySent;
    CountedNext(log, i);
    CountsGrow(log, i + 1, j);
    assert Follows(log[..i], log[i]) && Follows(log[..j], log[j]);
  }

  // Any 255 Siamese packets in succession have different rows, with different row
  // values.
  lemma SiameseRowsDiffer(log: seq<Sent>, i: nat, j: nat)
    requires InTurn(log) && i < j < |log| && SiameseSent(log[i]) && SiameseSent(log[j])
    requires SiameseCount(log[..j]) < SiameseCount(log[..i]) + 255
    ensures log[i].metadata.row != log[j].metadata.row
    ensures GetRowValue(log[i].metadata.row) != GetRowValue(log[j].metadata.row)
  {
    hide SiameseCount, SiameseSent, GetRowValue;
    CountedNext(log, i);
    CountsGrow(log, i + 1, j);
    assert Follows(log[..i], log[i]) && Follows(log[..j], log[j]);
    var r, s := log[i].metadata.row, log[j].metadata.row;
    RowValuesDiffer(if r < s then r else s, if r < s then s else r);
  }

  // The range of a parity row starts past the ranges of all earlier ones.
  lemma {:induction false} ParityEndGrows(log: seq<Sent>, i: nat, j: nat)
    requires InTurn(log) && i <= j <= |log|
    ensures ParityEnd(log[..i]) <= ParityEnd(log[..j])
    decreases j
  {
    hide ParityEnd;
    if i < j {
      ParityEndGrows(log, i, j - 1);
      CountedNext(log, j - 1);
      assert Follows(log[..j - 1], log[j - 1]);
    }
  }

  lemma ParityRowsApart(log: seq<Sent>, i: nat, j: nat)
    requires InTurn(log) && i < j < |log| && ParitySent(log[i]) && ParitySent(log[j])
    ensures log[i].start + log[i].metadata.sumCount <= log[j].start
  {
    hide ParityEnd;
    CountedNext(log, i);
    ParityEndGrows(log, i + 1, j);
    assert Follows(log[..j], log[j]);
  }
}
