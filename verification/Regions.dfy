// The checked region: the recovery packets and losses in the matrix so far, and
// what the matrix generated from them is.
module Regions {
  import opened Columns
  import opened Gf256
  import opened LinearAlgebra
  import opened Coefficients
  import opened DecoderSums
  import opened Losses
  import opened Recoveries
  import opened Rank
  import opened RecoveryMatrix
  import opened DecoderWindow
  import opened DecoderRows

  // Every row has a range that starts at some packet.
  ghost predicate Ranged(recs: seq<Recovery>, base: nat) {
    forall i :: 0 <= i < |recs| ==> ValidMetadata(recs[i].metadata) && 0 <= StartOf(recs[i], base)
  }

  // The payload is the row of coefficients times the packets of the range.
  ghost predicate Carries(r: Recovery, raw: Draws, h: seq<Gf>, base: nat) {
    && ValidMetadata(r.metadata) && 0 <= StartOf(r, base) && base + r.elementEnd <= |h|
    && r.payload == Dot(CoefficientRow(raw, r.metadata), h[StartOf(r, base)..StartOf(r, base) + r.metadata.sumCount])
  }

  // The first k rows know the number of losses up to their ends.
  ghost predicate Counted(recs: seq<Recovery>, k: nat, received: set<nat>, base: nat) {
    k <= |recs| && forall i :: 0 <= i < k ==> recs[i].lostCount == |Lost(received, base + recs[i].elementEnd)|
  }

  function Counts(recs: seq<Recovery>, k: nat): (c: seq<nat>)
    requires k <= |recs|
    ensures |c| == k && forall i :: 0 <= i < k ==> c[i] == recs[i].lostCount
  {
    seq(k, i requires 0 <= i < k => recs[i].lostCount)
  }

  ghost function MatrixRows(recs: seq<Recovery>, k: nat, raw: Draws, base: nat, lost: seq<nat>): (rows: seq<Row>)
    requires k <= |recs| && Ranged(recs, base)
    ensures |rows| == k
    ensures forall i :: 0 <= i < k ==> rows[i] == EntryRow(raw, recs[i].metadata, StartOf(recs[i], base), lost)
  {
    seq(k, i requires 0 <= i < k => EntryRow(raw, recs[i].metadata, StartOf(recs[i], base), lost))
  }

  // The matrix holds the first k rows and the first n losses before element end.
  ghost predicate Generated(recs: seq<Recovery>, k: nat, raw: Draws, received: set<nat>, base: nat, end: nat, orig: seq<Row>, counts: seq<nat>, n: nat) {
    && k <= |recs| && Ranged(recs, base) && n <= |Lost(received, base + end)|
    && n == (if k == 0 then 0 else recs[k - 1].lostCount)
    && orig == MatrixRows(recs, k, raw, base, Lost(received, base + end)[..n]) && counts == Counts(recs, k)
  }

  // ... and each lost packet in it knows its column, each column its packet.
  ghost predicate Columned(columns: seq<nat>, matrixColumns: seq<nat>, received: set<nat>, base: nat, end: nat, n: nat) {
    var l := Lost(received, base + end);
    && n <= |l| && Numbers(columns, l[..n])
    && forall j :: 0 <= j < n ==> base <= l[j] < base + |matrixColumns| && matrixColumns[l[j] - base] == j
  }

  // Losses past the end of a row's range are zeros in its matrix row.
  lemma RowTail(raw: Draws, m: Metadata, start: nat, received: set<nat>, end: nat)
    requires ValidMetadata(m) && start + m.sumCount <= end
    ensures |Lost(received, start + m.sumCount)| <= |Lost(received, end)|
    ensures ZeroFrom(EntryRow(raw, m, start, Lost(received, end)), |Lost(received, start + m.sumCount)|)
  {
    hide Coefficient, Lost;
    LostPrefix(received, start + m.sumCount, end);
  }

  // Growing the matrix by rows and columns.
  lemma GeneratedGrows(recs: seq<Recovery>, k: nat, k': nat, raw: Draws, received: set<nat>, base: nat, end: nat, orig: seq<Row>, counts: seq<nat>, n: nat)
    requires Generated(recs, k, raw, received, base, end, orig, counts, n)
    requires k <= k' <= |recs| && 0 < k' && Sorted(recs) && Counted(recs, k', received, base)
    requires recs[k' - 1].elementEnd == end
    ensures var l := Lost(received, base + end);
            && Generates(orig, counts, n, MatrixRows(recs, k', raw, base, l), Counts(recs, k'), |l|)
            && Generated(recs, k', raw, received, base, end, MatrixRows(recs, k', raw, base, l), Counts(recs, k'), |l|)
    ensures forall r, s :: 0 <= r <= s < k' ==> recs[r].lostCount <= recs[s].lostCount
  {
    hide Lost, EntryRow, ZeroFrom;
    var l := Lost(received, base + end);
    forall r, s | 0 <= r <= s < k' ensures recs[r].lostCount <= recs[s].lostCount {
      LostPrefix(received, base + recs[r].elementEnd, base + recs[s].elementEnd);
    }
    assert l[..|l|] == l;
    var gen := MatrixRows(recs, k', raw, base, l);
    forall r | 0 <= r < k' ensures recs[r].lostCount <= |l| && ZeroFrom(gen[r], recs[r].lostCount) {
      RowTail(raw, recs[r].metadata, StartOf(recs[r], base), received, base + end);
    }
    forall r | 0 <= r < k ensures gen[r][..n] == EntryRow(raw, recs[r].metadata, StartOf(recs[r], base), l[..n]) && ZeroFrom(gen[r], n) {
      EntryPrefix(raw, recs[r].metadata, StartOf(recs[r], base), l, n);
      ZeroLater(gen[r], recs[r].lostCount, n);
    }
  }

  lemma EntryPrefix(raw: Draws, m: Metadata, start: nat, l: seq<nat>, n: nat)
    requires ValidMetadata(m) && n <= |l|
    ensures EntryRow(raw, m, start, l)[..n] == EntryRow(raw, m, start, l[..n])
    ensures EntryRow(raw, m, start, l)[n..] == EntryRow(raw, m, start, l[n..])
  {
    hide Entry;
  }

  lemma ZeroLater(r: Row, n: nat, later: nat)
    requires ZeroFrom(r, n) && n <= later
    ensures ZeroFrom(r, later)
  {}

  // Nothing is in the region yet.
  lemma NoRegion(recs: seq<Recovery>, raw: Draws, received: set<nat>, base: nat, matrixColumns: seq<nat>)
    requires Ranged(recs, base) && forall a: nat :: a < base ==> a in received
    ensures Checked(NO_REGION, recs, received, base)
    ensures Underlies(NO_REGION, recs, raw, received, base, [], [], 0, [], matrixColumns, 0)
  {
    NothingLost(received, 0, base);
  }

  // A packet received past the region changes nothing in it.
  lemma RegionSame(recs: seq<Recovery>, k: nat, received: set<nat>, base: nat, end: nat, a: nat)
    requires Counted(recs, k, received, base) && base + end <= a
    requires forall i :: 0 <= i < k ==> recs[i].elementEnd <= end
    ensures Counted(recs, k, received + {a}, base)
    ensures Lost(received + {a}, base + end) == Lost(received, base + end)
  {
    hide Lost;
    LostSame(received, received + {a}, base + end);
    forall i | 0 <= i < k ensures Lost(received + {a}, base + recs[i].elementEnd) == Lost(received, base + recs[i].elementEnd) {
      LostSame(received, received + {a}, base + recs[i].elementEnd);
    }
  }

  // Nor does moving the front of the window.
  lemma RegionMoved(recs: seq<Recovery>, k: nat, raw: Draws, received: set<nat>, base: nat, end: nat, orig: seq<Row>, counts: seq<nat>, n: nat, removed: nat)
    requires Generated(recs, k, raw, received, base, end, orig, counts, n) && removed <= end
    requires forall r :: r in recs ==> removed <= r.elementStart && removed <= r.elementEnd
    ensures Ranged(Moved(recs, removed), base + removed)
    ensures Generated(Moved(recs, removed), k, raw, received, base + removed, end - removed, orig, counts, n)
  {
    hide Lost, EntryRow;
    var more := Moved(recs, removed);
    assert base + removed + (end - removed) == base + end;
    forall i | 0 <= i < |recs| ensures StartOf(more[i], base + removed) == StartOf(recs[i], base) {}
    assert MatrixRows(more, k, raw, base + removed, Lost(received, base + end)[..n]) == MatrixRows(recs, k, raw, base, Lost(received, base + end)[..n]);
    assert Counts(more, k) == Counts(recs, k);
  }

  lemma ColumnsMoved(columns: seq<nat>, matrixColumns: seq<nat>, received: set<nat>, base: nat, end: nat, n: nat, removed: nat)
    requires Columned(columns, matrixColumns, received, base, end, n) && removed <= end && removed <= |matrixColumns|
    requires forall a: nat :: a < base + removed ==> a in received
    ensures Columned(columns, matrixColumns[removed..], received, base + removed, end - removed, n)
  {
    hide Lost;
    LostLists(received, base + end);
    assert base + removed + (end - removed) == base + end;
  }

  lemma CountedMoved(recs: seq<Recovery>, k: nat, received: set<nat>, base: nat, removed: nat)
    requires Counted(recs, k, received, base)
    requires forall r :: r in recs ==> removed <= r.elementStart && removed <= r.elementEnd
    ensures Counted(Moved(recs, removed), k, received, base + removed)
  {
    hide Lost;
    forall i | 0 <= i < k ensures base + removed + Moved(recs, removed)[i].elementEnd == base + recs[i].elementEnd {}
  }

  lemma CarriesMoved(r: Recovery, raw: Draws, h: seq<Gf>, base: nat, removed: nat)
    requires Carries(r, raw, h, base) && removed <= r.elementStart && removed <= r.elementEnd
    ensures Carries(r.(elementStart := r.elementStart - removed, elementEnd := r.elementEnd - removed), raw, h, base + removed)
  {
    hide Dot, CoefficientRow, ValidMetadata;
  }

  // ---- the list of recovery packets in a window ----

  // Sorted by right ends; each row agrees with its metadata, carries its
  // payload, and can be used with the window's sums.
  ghost predicate Listed(recs: seq<Recovery>, raw: Draws, h: seq<Gf>, base: nat, count: nat, next: nat, sumBase: nat, live: bool) {
    && Sorted(recs)
    && forall i :: 0 <= i < |recs| ==> Sound(recs[i], raw, h, base, count, next, sumBase, live)
  }

  ghost predicate Sound(r: Recovery, raw: Draws, h: seq<Gf>, base: nat, count: nat, next: nat, sumBase: nat, live: bool) {
    Fits(r, base, count, next) && Near(r.metadata, StartOf(r, base), base, sumBase, live) && Carries(r, raw, h, base)
  }

  lemma ListedDeleted(recs: seq<Recovery>, raw: Draws, h: seq<Gf>, base: nat, count: nat, next: nat, sumBase: nat, live: bool, later: nat)
    requires Listed(recs, raw, h, base, count, next, sumBase, live) && next <= later
    ensures Listed(DeletedBefore(recs, later), raw, h, base, count, later, sumBase, live)
  {
    hide Carries, Near, Wrap, ValidMetadata;
    DeletedExactly(recs, later);
    var l := DeletedBefore(recs, later);
    forall i | 0 <= i < |l| ensures Sound(l[i], raw, h, base, count, later, sumBase, live) {
      assert l[i] == recs[|recs| - |l| + i];
    }
  }

  lemma ListedGrown(recs: seq<Recovery>, raw: Draws, h: seq<Gf>, base: nat, count: nat, next: nat, sumBase: nat, live: bool, more: nat)
    requires Listed(recs, raw, h, base, count, next, sumBase, live) && count <= more
    ensures Listed(recs, raw, h, base, more, next, sumBase, live)
  {
    hide Carries, Near, Wrap, ValidMetadata;
  }

  lemma ListedMoved(recs: seq<Recovery>, raw: Draws, h: seq<Gf>, base: nat, count: nat, next: nat, sumBase: nat, live: bool, removed: nat,
          sumBase': nat, live': bool)
    requires Listed(recs, raw, h, base, count, next, sumBase, live)
    requires removed <= next && removed <= count && forall i :: 0 <= i < |recs| ==> removed <= recs[i].elementStart
    requires !live' ==> forall i :: 0 <= i < |recs| ==> !IsSiamese(recs[i])
    ensures forall r :: r in recs ==> removed <= r.elementStart && removed <= r.elementEnd
    ensures Listed(Moved(recs, removed), raw, h, base + removed, count - removed, next - removed, sumBase', live')
  {
    hide Carries, Wrap, ValidMetadata;
    forall i | 0 <= i < |recs|
      ensures removed <= recs[i].elementEnd
      ensures Sound(recs[i].(elementStart := recs[i].elementStart - removed, elementEnd := recs[i].elementEnd - removed),
                  raw, h, base + removed, count - removed, next - removed, sumBase', live')
    {
      CarriesMoved(recs[i], raw, h, base, removed);
    }
  }

  // The running sums become those of a listed row.
  lemma ListedUsed(recs: seq<Recovery>, raw: Draws, h: seq<Gf>, base: nat, count: nat, next: nat, sumBase: nat, live: bool, i: nat)
    requires Listed(recs, raw, h, base, count, next, sumBase, live) && i < |recs|
    ensures 0 <= StartOf(recs[i], base) && Listed(recs, raw, h, base, count, next, StartOf(recs[i], base), true)
  {
    hide Carries, Wrap, ValidMetadata;
  }

  lemma ListedInserted(recs: seq<Recovery>, raw: Draws, h: seq<Gf>, base: nat, count: nat, next: nat, sumBase: nat, live: bool, r: Recovery)
    requires Listed(recs, raw, h, base, count, next, sumBase, live) && Sound(r, raw, h, base, count, next, sumBase, live)
    ensures Listed(Inserted(recs, r), raw, h, base, count, next, sumBase, live)
  {
    hide Sound;
    InsertedSorted(recs, r);
  }

  // ---- the region and its matrix together ----

  datatype CheckedRegion = CheckedRegion(elementStart: nat, nextCheckStart: nat, recoveryCount: nat, lostCount: nat)

  const NO_REGION := CheckedRegion(0, 0, 0, 0)

  ghost predicate Checked(region: CheckedRegion, recs: seq<Recovery>, received: set<nat>, base: nat) {
    && Counted(recs, region.recoveryCount, received, base)
    && if region.recoveryCount == 0 then region == NO_REGION
       else
         && region.elementStart == recs[0].elementStart
         && region.nextCheckStart == recs[region.recoveryCount - 1].elementEnd
         && region.lostCount == recs[region.recoveryCount - 1].lostCount
  }

  // The matrix was generated from the first rows of the region; the region may
  // have grown since.
  ghost predicate Underlies(region: CheckedRegion, recs: seq<Recovery>, raw: Draws, received: set<nat>, base: nat,
      orig: seq<Row>, counts: seq<nat>, n: nat, columns: seq<nat>, matrixColumns: seq<nat>, prev: nat) {
    && |orig| <= region.recoveryCount
    && Generated(recs, |orig|, raw, received, base, region.nextCheckStart, orig, counts, n)
    && Columned(columns, matrixColumns, received, base, region.nextCheckStart, n)
    && prev <= region.nextCheckStart && n == |Lost(received, base + prev)|
  }

  function Shifted(region: CheckedRegion, removed: nat): CheckedRegion
    requires removed <= region.elementStart && removed <= region.nextCheckStart
  {
    region.(elementStart := region.elementStart - removed, nextCheckStart := region.nextCheckStart - removed)
  }

  lemma RegionShifted(region: CheckedRegion, recs: seq<Recovery>, raw: Draws, received: set<nat>, base: nat,
      orig: seq<Row>, counts: seq<nat>, n: nat, columns: seq<nat>, matrixColumns: seq<nat>, prev: nat, removed: nat)
    requires Checked(region, recs, received, base)
    requires Underlies(region, recs, raw, received, base, orig, counts, n, columns, matrixColumns, prev)
    requires removed <= region.elementStart && removed <= region.nextCheckStart && removed <= |matrixColumns|
    requires forall r :: r in recs ==> removed <= r.elementStart && removed <= r.elementEnd
    requires forall a: nat :: a < base + removed ==> a in received
    ensures Checked(Shifted(region, removed), Moved(recs, removed), received, base + removed)
    ensures Underlies(Shifted(region, removed), Moved(recs, removed), raw, received, base + removed, orig, counts, n, columns,
                      matrixColumns[removed..], if prev > removed then prev - removed else 0)
  {
    hide Lost, Generated, Columned;
    CountedMoved(recs, region.recoveryCount, received, base, removed);
    RegionMoved(recs, |orig|, raw, received, base, region.nextCheckStart, orig, counts, n, removed);
    ColumnsMoved(columns, matrixColumns, received, base, region.nextCheckStart, n, removed);
    if prev > removed {
      assert base + removed + (prev - removed) == base + prev;
    } else {
      NothingLostBefore(received, base + removed);
      LostPrefix(received, base + prev, base + removed);
    }
  }

  // An up-to-date matrix is the one the region's packets make of its losses.
  lemma RegionMatrix(region: CheckedRegion, recs: seq<Recovery>, raw: Draws, received: set<nat>, base: nat,
      orig: seq<Row>, counts: seq<nat>, n: nat, columns: seq<nat>, matrixColumns: seq<nat>, prev: nat)
    requires Checked(region, recs, received, base)
    requires Underlies(region, recs, raw, received, base, orig, counts, n, columns, matrixColumns, prev)
    requires 0 < region.recoveryCount == |orig| && n == region.lostCount
    ensures Ranged(recs, base)
    ensures var l := Lost(received, base + region.nextCheckStart);
            && Lists(l, received, base + region.nextCheckStart)
            && n == |l| && Numbers(columns, l) && orig == MatrixRows(recs, region.recoveryCount, raw, base, l)
            && forall j :: 0 <= j < |l| ==> base <= l[j]
  {
    hide Wrap, Lost, EntryRow;
    var l := Lost(received, base + region.nextCheckStart);
    LostLists(received, base + region.nextCheckStart);
    assert l[..|l|] == l;
  }

  // ---- taking another recovery packet into the region ----

  lemma ListedRecounted(recs: seq<Recovery>, raw: Draws, h: seq<Gf>, base: nat, count: nat, next: nat, sumBase: nat, live: bool, i: nat, lost: nat)
    requires Listed(recs, raw, h, base, count, next, sumBase, live) && i < |recs|
    ensures Listed(recs[i := recs[i].(lostCount := lost)], raw, h, base, count, next, sumBase, live)
  {
    hide CoefficientRow, Dot, Near, ValidMetadata, Wrap;
  }

  function Extended(region: CheckedRegion, r: Recovery): CheckedRegion {
    CheckedRegion(if region.recoveryCount == 0 then r.elementStart else region.elementStart, r.elementEnd, region.recoveryCount + 1, r.lostCount)
  }

  lemma CheckedExtended(region: CheckedRegion, recs: seq<Recovery>, received: set<nat>, base: nat, lost: nat)
    requires Checked(region, recs, received, base) && region.recoveryCount < |recs|
    requires lost == |Lost(received, base + recs[region.recoveryCount].elementEnd)|
    ensures var i := region.recoveryCount; var r := recs[i].(lostCount := lost);
            Checked(Extended(region, r), recs[i := r], received, base)
  {
    hide Lost;
  }

  // The matrix stays that of the first rows and columns when the region grows,
  // and when a later row is counted.
  lemma UnderliesExtended(region: CheckedRegion, bigger: CheckedRegion, recs: seq<Recovery>, more: seq<Recovery>, raw: Draws, received: set<nat>, base: nat,
      orig: seq<Row>, counts: seq<nat>, n: nat, columns: seq<nat>, matrixColumns: seq<nat>, prev: nat)
    requires Underlies(region, recs, raw, received, base, orig, counts, n, columns, matrixColumns, prev)
    requires region.recoveryCount <= bigger.recoveryCount && region.nextCheckStart <= bigger.nextCheckStart
    requires Ranged(more, base) && region.recoveryCount <= |more| && forall i :: 0 <= i < region.recoveryCount && i < |recs| ==> more[i] == recs[i]
    ensures Underlies(bigger, more, raw, received, base, orig, counts, n, columns, matrixColumns, prev)
  {
    hide Lost, EntryRow, Wrap, ValidMetadata;
    var l, m := Lost(received, base + region.nextCheckStart), Lost(received, base + bigger.nextCheckStart);
    LostPrefix(received, base + region.nextCheckStart, base + bigger.nextCheckStart);
    assert m[..n] == l[..n];
    assert MatrixRows(more, |orig|, raw, base, m[..n]) == MatrixRows(recs, |orig|, raw, base, l[..n]);
    assert Counts(more, |orig|) == Counts(recs, |orig|);
  }

  lemma CheckedKept(region: CheckedRegion, recs: seq<Recovery>, received: set<nat>, base: nat, i: nat, lost: nat)
    requires Checked(region, recs, received, base) && region.recoveryCount <= i < |recs|
    ensures Checked(region, recs[i := recs[i].(lostCount := lost)], received, base)
  {
    hide Lost;
  }

  // What is known of the next recovery packet to take in.
  lemma NextRow(region: CheckedRegion, recs: seq<Recovery>, raw: Draws, h: seq<Gf>, received: set<nat>, base: nat, count: nat, next: nat, sumBase: nat, live: bool)
    requires Checked(region, recs, received, base) && Listed(recs, raw, h, base, count, next, sumBase, live) && region.recoveryCount < |recs|
    requires (forall a: nat :: a < base + next ==> a in received) && (next < count ==> base + next !in received)
    ensures var r := recs[region.recoveryCount];
            && r.elementStart <= next < r.elementEnd <= count && 0 < |Lost(received, base + r.elementEnd)|
            && (region.recoveryCount == 0 ==> region.lostCount == 0 && region.nextCheckStart == 0 && Lost(received, base + r.elementStart) == [])
            && (region.recoveryCount > 0 ==> region.nextCheckStart <= r.elementEnd && region.lostCount == |Lost(received, base + region.nextCheckStart)|)
  {
    hide Lost, Carries, Near, Wrap, ValidMetadata;
    var r := recs[region.recoveryCount];
    assert Sound(r, raw, h, base, count, next, sumBase, live);
    NothingLostBefore(received, base + r.elementStart);
    LostLists(received, base + r.elementEnd);
    assert base + next in Lost(received, base + r.elementEnd);
  }

  // ---- the last recovery packet received in order ----

  // Its range is listed or has been received, and neither the front of the window
  // nor the end of a listed packet's range is half a period past its end.
  ghost predicate LastKept(last: Metadata, lastStart: nat, recs: seq<Recovery>, base: nat, next: nat, sumBase: nat, live: bool) {
    && Kept(last, lastStart) && LastApart(last, lastStart, base, sumBase, live)
    && lastStart + last.sumCount <= base + CoveredEnd(recs, next)
    && base <= lastStart + last.sumCount + COLUMN_PERIOD / 2
    && forall i :: 0 <= i < |recs| ==> base + recs[i].elementEnd <= lastStart + last.sumCount + COLUMN_PERIOD / 2
  }

  lemma LastRecounted(last: Metadata, lastStart: nat, recs: seq<Recovery>, base: nat, next: nat, sumBase: nat, live: bool, i: nat, lost: nat)
    requires LastKept(last, lastStart, recs, base, next, sumBase, live) && i < |recs|
    ensures LastKept(last, lastStart, recs[i := recs[i].(lostCount := lost)], base, next, sumBase, live)
  {
    hide Kept, LastApart;
  }

  lemma LastDeleted(last: Metadata, lastStart: nat, recs: seq<Recovery>, base: nat, next: nat, sumBase: nat, live: bool, later: nat)
    requires LastKept(last, lastStart, recs, base, next, sumBase, live) && Sorted(recs) && next <= later
    ensures LastKept(last, lastStart, DeletedBefore(recs, later), base, later, sumBase, live)
  {
    hide Kept, LastApart, DeletedBefore, CoveredEnd;
    DeletedCovers(recs, next, later);
    DeletedEnds(recs, later, base, lastStart + last.sumCount + COLUMN_PERIOD / 2);
  }

  lemma DeletedEnds(recs: seq<Recovery>, e: nat, base: nat, limit: nat)
    requires forall i :: 0 <= i < |recs| ==> base + recs[i].elementEnd <= limit
    ensures var l := DeletedBefore(recs, e); forall i :: 0 <= i < |l| ==> base + l[i].elementEnd <= limit
  {
    hide DeletedBefore;
    TailEnds(recs, |recs| - |DeletedBefore(recs, e)|, base, limit);
  }

  lemma TailEnds(recs: seq<Recovery>, k: nat, base: nat, limit: nat)
    requires k <= |recs| && forall i :: 0 <= i < |recs| ==> base + recs[i].elementEnd <= limit
    ensures forall i :: 0 <= i < |recs[k..]| ==> base + recs[k..][i].elementEnd <= limit
  {}

  lemma LastMoved(last: Metadata, lastStart: nat, recs: seq<Recovery>, base: nat, count: nat, next: nat, sumBase: nat, live: bool, removed: nat,
          sumBase': nat, live': bool)
    requires LastKept(last, lastStart, recs, base, next, sumBase, live) && removed <= next <= count <= COLUMN_PERIOD / 2
    requires forall r :: r in recs ==> removed <= r.elementStart && removed <= r.elementEnd <= count
    requires if recs == [] then base + removed <= lastStart + last.sumCount else base + removed <= base + recs[0].elementEnd
    requires !live' ==> sumBase' == sumBase
    requires live ==> base <= sumBase + MAX_PACKETS && sumBase <= base + count
    ensures LastKept(last, lastStart, Moved(recs, removed), base + removed, next - removed, sumBase', live')
  {
    hide Kept;
  }

  // A packet that does not count as the last is listed.
  lemma LastStays(last: Metadata, lastStart: nat, recs: seq<Recovery>, base: nat, next: nat, sumBase: nat, live: bool, r: Recovery)
    requires LastKept(last, lastStart, recs, base, next, sumBase, live) && Sorted(recs) && next <= r.elementEnd
    requires base + r.elementEnd <= lastStart + last.sumCount + COLUMN_PERIOD / 2
    ensures LastKept(last, lastStart, Inserted(recs, r), base, next, sumBase, live)
  {
    hide Kept, LastApart;
    InsertedSorted(recs, r);
    InsertedHas(recs, r);
  }

  // A packet that does is listed, or all its range has been received.
  lemma LastReplaced(m: Metadata, start: nat, recs: seq<Recovery>, base: nat, count: nat, next: nat, sumBase: nat, live: bool)
    requires ValidMetadata(m) && Wrap(start) == m.columnStart && LastApart(m, start, base, sumBase, live)
    requires start + m.sumCount <= base + CoveredEnd(recs, next) && base + count <= start + m.sumCount + COLUMN_PERIOD / 2
    requires forall i :: 0 <= i < |recs| ==> recs[i].elementEnd <= count
    ensures LastKept(m, start, recs, base, next, sumBase, live)
  {
    hide Wrap;
  }

  lemma InsertedHas(recs: seq<Recovery>, r: Recovery)
    ensures var l := Inserted(recs, r);
            && (forall i :: 0 <= i < |recs| ==> recs[i] in l) && r in l
            && forall i :: 0 <= i < |l| ==> l[i] == r || l[i] in recs
  {
    var k, l := Place(recs, r), Inserted(recs, r);
    assert l[k] == r;
    forall i | 0 <= i < |recs| ensures recs[i] in l {
      assert l[if i < k then i else i + 1] == recs[i];
    }
  }

  // The losses can be solved for: no two data vectors give the same payloads.
  ghost predicate Determined(recs: seq<Recovery>, k: nat, raw: Draws, base: nat, lost: seq<nat>) {
    k <= |recs| && Ranged(recs, base) && FullColumnRank(MatrixRows(recs, k, raw, base, lost), |lost|)
  }

  // The losses up to the end of the k-th packet.
  ghost function LossesOf(recs: seq<Recovery>, k: nat, received: set<nat>, base: nat): seq<nat> {
    if 0 < k <= |recs| then Lost(received, base + recs[k - 1].elementEnd) else []
  }

  // How many packets it takes, from the first k on, until there are as many as
  // losses up to the end of the last of them; all if there never are.
  ghost function Enough(recs: seq<Recovery>, received: set<nat>, base: nat, k: nat): (r: nat)
    ensures k <= r && (k <= |recs| ==> r <= |recs|)
    ensures forall j :: k <= j < r ==> j < |LossesOf(recs, j, received, base)|
    ensures r >= |recs| || |LossesOf(recs, r, received, base)| <= r
    decreases |recs| - k
  {
    if k < |recs| && k < |LossesOf(recs, k, received, base)| then Enough(recs, received, base, k + 1) else k
  }

  // The same packets, but for the losses counted.
  ghost predicate SameRows(recs: seq<Recovery>, more: seq<Recovery>) {
    |recs| == |more| && forall i :: 0 <= i < |recs| ==> more[i] == recs[i].(lostCount := more[i].lostCount)
  }

  lemma SameRowsSelf(recs: seq<Recovery>)
    ensures SameRows(recs, recs)
  {}

  lemma SameRowsThen(recs: seq<Recovery>, more: seq<Recovery>, most: seq<Recovery>)
    requires SameRows(recs, more) && SameRows(more, most)
    ensures SameRows(recs, most)
  {}

  lemma SameRowsRecounted(recs: seq<Recovery>, more: seq<Recovery>, i: nat, lost: nat)
    requires SameRows(recs, more) && i < |more|
    ensures SameRows(recs, more[i := more[i].(lostCount := lost)])
  {}

  lemma SameDetermined(recs: seq<Recovery>, more: seq<Recovery>, k: nat, raw: Draws, base: nat, lost: seq<nat>)
    requires SameRows(recs, more)
    ensures Determined(recs, k, raw, base, lost) <==> Determined(more, k, raw, base, lost)
  {
    hide EntryRow, FullColumnRank, ValidMetadata;
    assert Ranged(recs, base) <==> Ranged(more, base) by {
      forall i | 0 <= i < |recs| ensures more[i].metadata == recs[i].metadata && StartOf(more[i], base) == StartOf(recs[i], base) {}
    }
    if Ranged(recs, base) && k <= |recs| {
      assert MatrixRows(more, k, raw, base, lost) == MatrixRows(recs, k, raw, base, lost);
    }
  }

  // On the way to the region that is to be reached; `failed` as long as the packets
  // are those of a region that could not be solved, `stalled` if there are no more.
  ghost predicate Reaching(region: CheckedRegion, recs: seq<Recovery>, more: seq<Recovery>, received: set<nat>, base: nat, reached: nat,
          stalled: bool, failed: bool) {
    var k := region.recoveryCount;
    && SameRows(recs, more) && 0 < k <= |recs| == |more| && region.lostCount == |LossesOf(recs, k, received, base)|
    && if failed then (stalled <==> k == |recs|) && reached == Enough(recs, received, base, if k < |recs| then k + 1 else k)
       else !stalled && reached == Enough(recs, received, base, k)
  }

  lemma ReachingFirst(region: CheckedRegion, recs: seq<Recovery>, more: seq<Recovery>, received: set<nat>, base: nat)
    requires SameRows(recs, more) && Checked(region, more, received, base) && region.recoveryCount > 0
    ensures Reaching(region, recs, more, received, base, Enough(recs, received, base, region.recoveryCount), false, false)
    ensures region.recoveryCount <= |recs| == |more|
  {
    hide Lost;
  }

  lemma ReachingAgain(region: CheckedRegion, recs: seq<Recovery>, received: set<nat>, base: nat)
    requires Checked(region, recs, received, base) && region.recoveryCount > 0
    ensures var k := region.recoveryCount;
            Reaching(region, recs, recs, received, base, Enough(recs, received, base, if k < |recs| then k + 1 else k), k == |recs|, true)
    ensures region.recoveryCount <= |recs|
  {
    hide Lost;
  }

  lemma ReachingNext(region: CheckedRegion, next: CheckedRegion, recs: seq<Recovery>, more: seq<Recovery>, most: seq<Recovery>, received: set<nat>,
          base: nat, reached: nat, stalled: bool, failed: bool)
    requires Reaching(region, recs, more, received, base, reached, stalled, failed) && SameRows(more, most)
    requires Checked(next, most, received, base) && next.recoveryCount == region.recoveryCount + 1 <= |more|
    requires failed || region.recoveryCount < region.lostCount
    ensures Reaching(next, recs, most, received, base, reached, stalled, false)
  {
    hide Lost;
  }

  lemma ReachingDone(region: CheckedRegion, recs: seq<Recovery>, more: seq<Recovery>, received: set<nat>, base: nat, reached: nat,
          stalled: bool, failed: bool)
    requires Reaching(region, recs, more, received, base, reached, stalled, failed)
    requires region.recoveryCount == |more| || (region.lostCount <= region.recoveryCount && !failed)
    ensures region.recoveryCount == reached && failed == stalled && SameRows(recs, more)
    ensures region.lostCount == |LossesOf(recs, reached, received, base)|
  {
    hide LossesOf;
  }

  lemma DeterminedKept(recs: seq<Recovery>, k: nat, raw: Draws, base: nat, lost: seq<nat>, i: nat, count: nat)
    requires k <= i < |recs| && Ranged(recs, base)
    ensures Determined(recs, k, raw, base, lost) <==> Determined(recs[i := recs[i].(lostCount := count)], k, raw, base, lost)
  {
    hide EntryRow, FullColumnRank, ValidMetadata;
    var more := recs[i := recs[i].(lostCount := count)];
    assert MatrixRows(more, k, raw, base, lost) == MatrixRows(recs, k, raw, base, lost);
  }

  // A packet that arrives past the region leaves the region and its matrix alone.
  lemma RegionKept(region: CheckedRegion, recs: seq<Recovery>, more: seq<Recovery>, raw: Draws, received: set<nat>, base: nat, a: nat,
      orig: seq<Row>, counts: seq<nat>, n: nat, columns: seq<nat>, matrixColumns: seq<nat>, matrixColumns': seq<nat>, prev: nat)
    requires Checked(region, recs, received, base) && Sorted(recs) && Ranged(more, base)
    requires Underlies(region, recs, raw, received, base, orig, counts, n, columns, matrixColumns, prev)
    requires base + region.nextCheckStart <= a && (region.recoveryCount > 0 ==> more == recs)
    requires |matrixColumns| <= |matrixColumns'| && matrixColumns'[..|matrixColumns|] == matrixColumns
    ensures Checked(region, more, received + {a}, base)
    ensures Underlies(region, more, raw, received + {a}, base, orig, counts, n, columns, matrixColumns', prev)
  {
    hide Lost, EntryRow, ValidMetadata, Wrap;
    RegionSame(recs, region.recoveryCount, received, base, region.nextCheckStart, a);
    LostSame(received, received + {a}, base + prev);
    if region.recoveryCount == 0 {
      assert MatrixRows(more, 0, raw, base, Lost(received, base)[..0]) == [];
    }
    var l := Lost(received, base + region.nextCheckStart);
    forall j | 0 <= j < n ensures matrixColumns'[l[j] - base] == j {
      assert matrixColumns'[..|matrixColumns|][l[j] - base] == j;
    }
  }

  // The region starts at or before the next expected element and ends after it.
  lemma RegionSpans(region: CheckedRegion, recs: seq<Recovery>, raw: Draws, h: seq<Gf>, received: set<nat>, base: nat, count: nat, next: nat,
          sumBase: nat, live: bool)
    requires Checked(region, recs, received, base) && Listed(recs, raw, h, base, count, next, sumBase, live) && region.recoveryCount > 0
    ensures region.elementStart <= next < region.nextCheckStart <= count
  {
    hide Lost, Carries, Near, Wrap, ValidMetadata;
    assert Sound(recs[0], raw, h, base, count, next, sumBase, live);
    assert Sound(recs[region.recoveryCount - 1], raw, h, base, count, next, sumBase, live);
  }

  lemma ListedSorted(recs: seq<Recovery>, raw: Draws, h: seq<Gf>, base: nat, count: nat, next: nat, sumBase: nat, live: bool)
    requires Listed(recs, raw, h, base, count, next, sumBase, live)
    ensures Sorted(recs)
  {}

  lemma NothingChecked(region: CheckedRegion, recs: seq<Recovery>, received: set<nat>, base: nat)
    requires Checked(region, recs, received, base) && region.recoveryCount == 0
    ensures region.nextCheckStart == 0
  {}

  lemma UnderliesGrown(region: CheckedRegion, recs: seq<Recovery>, raw: Draws, received: set<nat>, base: nat,
      orig: seq<Row>, counts: seq<nat>, n: nat, columns: seq<nat>, matrixColumns: seq<nat>, matrixColumns': seq<nat>, prev: nat)
    requires Underlies(region, recs, raw, received, base, orig, counts, n, columns, matrixColumns, prev)
    requires |matrixColumns| <= |matrixColumns'| && matrixColumns'[..|matrixColumns|] == matrixColumns
    ensures Underlies(region, recs, raw, received, base, orig, counts, n, columns, matrixColumns', prev)
  {
    hide Lost, EntryRow, ValidMetadata, Wrap, Generated;
    var l := Lost(received, base + region.nextCheckStart);
    forall j | 0 <= j < n ensures matrixColumns'[l[j] - base] == j {
      assert matrixColumns'[..|matrixColumns|][l[j] - base] == j;
    }
  }

  lemma CheckedLonger(region: CheckedRegion, recs: seq<Recovery>, more: seq<Recovery>, received: set<nat>, base: nat)
    requires Checked(region, recs, received, base) && recs <= more
    ensures Checked(region, more, received, base) && region.recoveryCount <= |more|
    ensures forall i :: 0 <= i < region.recoveryCount && i < |recs| ==> more[i] == recs[i]
  {
    hide Lost;
  }

  // A recovery packet as it is listed in a window that starts at packet base.
  ghost function Placed(m: Metadata, payload: Gf, start: nat, base: nat): Recovery {
    var end: int := start + m.sumCount - base;
    if m.ldpcCount <= end then Recovery(m, end - m.ldpcCount, end, 0, payload) else Recovery(m, 0, 0, 0, payload)
  }

  // The same packets, counted from another front of the window.
  ghost predicate SamePackets(recs: seq<Recovery>, base: nat, more: seq<Recovery>, base': nat) {
    && |recs| == |more|
    && forall i :: 0 <= i < |recs| ==>
         more[i].metadata == recs[i].metadata && more[i].payload == recs[i].payload && StartOf(more[i], base') == StartOf(recs[i], base)
  }

  lemma UnmovedPackets(recs: seq<Recovery>, base: nat)
    ensures SamePackets(recs, base, recs, base)
  {}

  lemma PacketsThen(recs: seq<Recovery>, base: nat, more: seq<Recovery>, most: seq<Recovery>, base': nat)
    requires SameRows(recs, more) && SamePackets(more, base, most, base')
    ensures SamePackets(recs, base, most, base')
  {}

  lemma {:induction false} SameDeleted(recs: seq<Recovery>, more: seq<Recovery>, e: nat)
    requires SameRows(recs, more)
    ensures SameRows(DeletedBefore(recs, e), DeletedBefore(more, e))
    decreases |recs|
  {
    if recs != [] {
      SameDeleted(recs[1..], more[1..], e);
    }
  }

  // The list and the last packet once the window has moved on.
  lemma ListMoved(last: Metadata, lastStart: nat, recs: seq<Recovery>, raw: Draws, h: seq<Gf>, base: nat, count: nat, next: nat, sumBase: nat, live: bool,
          removed: nat, sumBase': nat, live': bool)
    requires Listed(recs, raw, h, base, count, next, sumBase, live) && LastKept(last, lastStart, recs, base, next, sumBase, live)
    requires removed <= next <= count <= COLUMN_PERIOD / 2
    requires forall i :: 0 <= i < |recs| ==> removed <= recs[i].elementStart
    requires forall r :: r in recs ==> r.elementEnd <= count
    requires recs == [] ==> base + removed <= lastStart + last.sumCount
    requires !live' ==> sumBase' == sumBase && forall i :: 0 <= i < |recs| ==> !IsSiamese(recs[i])
    requires live ==> base <= sumBase + MAX_PACKETS && sumBase <= base + count
    ensures forall r :: r in recs ==> removed <= r.elementStart && removed <= r.elementEnd
    ensures Listed(Moved(recs, removed), raw, h, base + removed, count - removed, next - removed, sumBase', live')
    ensures LastKept(last, lastStart, Moved(recs, removed), base + removed, next - removed, sumBase', live')
    ensures SamePackets(recs, base, Moved(recs, removed), base + removed)
  {
    hide Listed, LastKept;
    ListedMoved(recs, raw, h, base, count, next, sumBase, live, removed, sumBase', live');
    LastMoved(last, lastStart, recs, base, count, next, sumBase, live, removed, sumBase', live');
  }
}
