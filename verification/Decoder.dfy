// The decoder: takes original and recovery packets in any order and gives back
// the packets that were lost, exactly as the encoder was given them.
module Decoder {
  import opened Collections
  import opened Columns
  import opened Gf256
  import opened LinearAlgebra
  import opened Coefficients
  import opened LaneSums
  import opened DecoderSums
  import opened Losses
  import opened Recoveries
  import opened SumOrder
  import opened Rank
  import opened RecoveryMatrix
  import opened DecoderWindow
  import opened DecoderRows
  import opened Regions
  import opened Solver

  const MAXIMUM_LOSS_RECOVERY_COUNT: nat := 255

  // The next loss after `element` is at `found`.
  lemma NextLoss(received: set<nat>, base: nat, element: nat, found: nat, end: nat)
    requires element <= found && forall a :: base + element <= a < base + found ==> a in received
    requires |Lost(received, base + element)| < |Lost(received, base + end)| && element <= end
    requires base + found !in received || found >= end
    ensures found < end && Lost(received, base + found + 1) == Lost(received, base + element) + [base + found]
    ensures Lost(received, base + found + 1) <= Lost(received, base + end)
  {
    if found < end {
      NothingLost(received, base + element, base + found);
      LostPrefix(received, base + found + 1, base + end);
    } else {
      NothingLost(received, base + element, base + end);
    }
  }

  datatype SiameseResult = Success | NeedMoreData | DuplicateData | Disabled

  datatype Original = Original(packetNum: nat, value: Gf)

  // What the decoder hands out for the given packets: their numbers and the data
  // the encoder was given.
  ghost function Reported(l: seq<nat>, h: seq<Gf>): (packets: seq<Original>)
    ensures |packets| == |l|
    ensures forall j :: 0 <= j < |l| && l[j] < |h| ==> packets[j] == Original(Wrap(l[j]), h[l[j]])
  {
    seq(|l|, j requires 0 <= j < |l| => Original(Wrap(l[j]), if l[j] < |h| then h[l[j]] else ZERO))
  }

  lemma NoneReported(h: seq<Gf>)
    ensures Reported([], h) == []
  {}

  lemma ReportedSnoc(l: seq<nat>, a: nat, h: seq<Gf>)
    requires a < |h|
    ensures Reported(l + [a], h) == Reported(l, h) + [Original(Wrap(a), h[a])]
    ensures forall b :: b in l + [a] ==> b in l || b == a
  {
    hide Wrap;
  }

  lemma OneReported(a: nat, l: seq<nat>, h: seq<Gf>)
    requires a < |h|
    ensures Reported([a] + l, h) == [Original(Wrap(a), h[a])] + Reported(l, h)
  {
    hide Wrap;
  }

  lemma AllReceived(l: seq<nat>, received: set<nat>, end: nat)
    requires Lists(l, received, end)
    ensures forall a: nat :: a < end ==> a in received + Elements(l)
    ensures forall a: nat :: a < end && a !in received ==> a in l
  {}

  lemma ListsFacts(l: seq<nat>, received: set<nat>, end: nat)
    requires Lists(l, received, end)
    ensures forall j :: 0 <= j < |l| ==> l[j] !in received && l[j] < end
    ensures forall i, j :: 0 <= i < j < |l| ==> l[i] < l[j]
  {}

  lemma LostSomething(received: set<nat>, a: nat, end: nat)
    requires a < end && a !in received
    ensures 0 < |Lost(received, end)|
  {
    hide Lost;
    LostLists(received, end);
  }

  // A parity row over one packet is that packet.
  lemma SingleRow(raw: Draws, m: Metadata, h: seq<Gf>, start: nat)
    requires ValidMetadata(m) && m.sumCount == 1 && m.row == 0 && start < |h|
    ensures Dot(CoefficientRow(raw, m), h[start..start + 1]) == h[start]
  {
    hide Add, Mul;
    var r, f := CoefficientRow(raw, m), h[start..start + 1];
    assert DotFrom(r, f, 1) == ZERO;
    assert r[0] == ONE && f[0] == h[start];
    MulOne(h[start]);
    AddZero(h[start]);
  }

  lemma FileStart(l: seq<nat>, received: set<nat>)
    ensures l[|l|..] == [] && received == received + Elements(l[|l|..])
  {}

  lemma FileStep(l: seq<nat>, received: set<nat>, col: nat)
    requires col < |l| && l[col] !in received && forall i, j :: 0 <= i < j < |l| ==> l[i] < l[j]
    ensures l[col] !in received + Elements(l[col + 1..])
    ensures received + Elements(l[col + 1..]) + {l[col]} == received + Elements(l[col..])
    ensures l[col..] == [l[col]] + l[col + 1..]
  {
    assert l[col..] == [l[col]] + l[col + 1..];
  }

  lemma DataAt(h: seq<Gf>, l: seq<nat>, j: nat)
    requires j < |l| && forall k :: 0 <= k < |l| ==> l[k] < |h|
    ensures Data(h, l)[j] == h[l[j]]
  {}

  // What the received packets of a window look like.
  ghost predicate Marked(originals: seq<Option<Gf>>, received: set<nat>, base: nat, next: nat) {
    && (forall a: nat :: a < base + next ==> a in received)
    && forall e :: 0 <= e < |originals| ==> (originals[e].None? <==> base + e !in received)
  }

  // Everything the row of a listed recovery packet needs of the columns.
  lemma RowReady(r: Recovery, base: nat, count: nat, next: nat, originals: seq<Option<Gf>>, received: set<nat>, columns: seq<nat>, matrixColumns: seq<nat>, end: nat)
    requires Fits(r, base, count, next) && r.elementEnd <= end <= count <= COLUMN_PERIOD / 2
    requires |originals| == |matrixColumns| == count && Marked(originals, received, base, next)
    requires Columned(columns, matrixColumns, received, base, end, |Lost(received, base + end)|)
    ensures var l := Lost(received, base + end);
            && After(l, StartOf(r, base)) && Numbers(columns, l)
            && Indexed(originals, matrixColumns, base, r.elementStart, r.elementEnd, l)
  {
    hide Lost, Wrap, Indexed;
    var l := Lost(received, base + end);
    LostLists(received, base + end);
    assert l[..|l|] == l;
    AllIndexed(originals, received, matrixColumns, base, r.elementStart, r.elementEnd, end, l);
  }

  lemma AllIndexed(originals: seq<Option<Gf>>, received: set<nat>, matrixColumns: seq<nat>, base: nat, first: nat, last: nat, end: nat, l: seq<nat>)
    requires |originals| == |matrixColumns| && last <= end <= |originals| && Lists(l, received, base + end)
    requires forall e :: 0 <= e < |originals| ==> (originals[e].None? <==> base + e !in received)
    requires forall j :: 0 <= j < |l| ==> base <= l[j] < base + |matrixColumns| && matrixColumns[l[j] - base] == j
    ensures Indexed(originals, matrixColumns, base, first, last, l)
  {
    forall e | first <= e < last
      ensures if originals[e].None? then matrixColumns[e] < |l| && l[matrixColumns[e]] == base + e else base + e !in l
    {
      if originals[e].None? {
        var j :| 0 <= j < |l| && l[j] == base + e;
        assert matrixColumns[l[j] - base] == j;
      }
    }
  }

  // Every packet received either arrived itself or was recovered, and then waits to
  // be handed out or has been: exactly once.
  ghost predicate Accounted(arrivals: set<nat>, given: seq<nat>, waiting: seq<nat>, received: set<nat>) {
    && Distinct(given + waiting) && received == arrivals + Elements(given + waiting)
    && arrivals !! Elements(given + waiting)
  }

  // A packet joins those waiting, or all stays as it is.
  ghost predicate Joins(one: bool, a: nat, was: set<nat>, waited: seq<nat>, received: set<nat>, waiting: seq<nat>) {
    if one then a !in was && received == was + {a} && waiting == waited + [a] else received == was && waiting == waited
  }

  lemma JoinsAccounted(arrivals: set<nat>, given: seq<nat>, one: bool, a: nat, was: set<nat>, waited: seq<nat>, received: set<nat>, waiting: seq<nat>)
    requires Accounted(arrivals, given, waited, was) && Joins(one, a, was, waited, received, waiting)
    ensures Accounted(arrivals, given, waiting, received)
  {
    hide Accounted;
    if one {
      AccountedWaits(arrivals, given, waited, was, a);
    }
  }

  lemma OneJoins(a: nat, received: set<nat>, waiting: seq<nat>)
    requires a !in received
    ensures Joins(true, a, received, waiting, received + {a}, waiting + [a])
  {}

  lemma JoinsReceived(one: bool, a: nat, was: set<nat>, waited: seq<nat>, received: set<nat>, waiting: seq<nat>)
    requires Joins(one, a, was, waited, received, waiting)
    ensures received == if one then was + {a} else was
  {}

  lemma NoneJoins(a: nat, received: set<nat>, waiting: seq<nat>)
    ensures Joins(false, a, received, waiting, received, waiting)
  {}

  lemma OnceEach(s: seq<nat>, t: seq<nat>, a: nat)
    requires Distinct(s + t)
    ensures Distinct(s) && Distinct(t) && (a in s ==> a !in t)
  {
    forall i, j | 0 <= i < j < |s| ensures s[i] != s[j] {
      assert (s + t)[i] != (s + t)[j];
    }
    forall i, j | 0 <= i < j < |t| ensures t[i] != t[j] {
      assert (s + t)[|s| + i] != (s + t)[|s| + j];
    }
    forall i, j | 0 <= i < |s| && 0 <= j < |t| ensures s[i] != t[j] {
      assert (s + t)[i] != (s + t)[|s| + j];
    }
  }

  lemma AccountedNone()
    ensures Accounted({}, [], [], {})
  {}

  lemma AccountedArrival(arrivals: set<nat>, given: seq<nat>, waiting: seq<nat>, received: set<nat>, a: nat)
    requires Accounted(arrivals, given, waiting, received)
    ensures a in received ==> received + {a} == received
    ensures a !in received ==> Accounted(arrivals + {a}, given, waiting, received + {a})
  {
    hide Distinct;
  }

  lemma AccountedWaits(arrivals: set<nat>, given: seq<nat>, waiting: seq<nat>, received: set<nat>, a: nat)
    requires Accounted(arrivals, given, waiting, received) && a !in received
    ensures Accounted(arrivals, given, waiting + [a], received + {a})
  {
    AccountedMore(arrivals, given + waiting, received, [a]);
    assert given + (waiting + [a]) == given + waiting + [a];
    assert Elements([a]) == {a};
  }

  lemma AccountedMore(arrivals: set<nat>, s: seq<nat>, received: set<nat>, l: seq<nat>)
    requires Distinct(s) && received == arrivals + Elements(s) && arrivals !! Elements(s)
    requires Distinct(l) && forall a :: a in l ==> a !in received
    ensures Distinct(s + l) && received + Elements(l) == arrivals + Elements(s + l) && arrivals !! Elements(s + l)
  {
    forall i, j | 0 <= i < j < |s + l| ensures (s + l)[i] != (s + l)[j] {
      if i < |s| <= j {
        assert s[i] in s && l[j - |s|] in l;
      }
    }
  }

  lemma AccountedHanded(arrivals: set<nat>, given: seq<nat>, waiting: seq<nat>, received: set<nat>)
    requires Accounted(arrivals, given, waiting, received)
    ensures Accounted(arrivals, given + waiting, [], received)
  {
    hide Distinct;
    assert given + waiting + [] == given + waiting;
  }

  lemma AccountedSolved(arrivals: set<nat>, given: seq<nat>, received: set<nat>, l: seq<nat>)
    requires Accounted(arrivals, given, [], received) && Distinct(l) && forall a :: a in l ==> a !in received
    ensures Accounted(arrivals, given + l, [], received + Elements(l))
  {
    hide Distinct;
    assert given + [] == given && given + l + [] == given + l;
    AccountedMore(arrivals, given, received, l);
  }

  lemma LostFresh(received: set<nat>, end: nat)
    ensures Distinct(Lost(received, end)) && forall a :: a in Lost(received, end) ==> a !in received
  {
    hide Lost;
    LostLists(received, end);
  }

  lemma SameServed(recs: seq<Recovery>, more: seq<Recovery>, base: nat, sums: SumsAt)
    requires SameRows(recs, more)
    ensures Served(recs, base, sums) ==> Served(more, base, sums)
  {
  }

  class Decoder {
    const Raw: Draws
    const Window: DecoderPacketWindow
    const Matrix: RecoveryMatrixState
    var Recoveries: seq<Recovery>
    var LastRecoveryMetadata: Metadata
    ghost var LastStart: nat
    var LatestColumn: nat
    var EmergencyDisabled: bool

    // The checked region: the first recoveryCount recovery packets.
    var Region: CheckedRegion
    var SolveFailed: bool

    // Packets recovered from single recovery packets, to be reported.
    var RecoveredPackets: seq<Original>
    var HasRecoveredPackets: bool
    ghost var RecoveredFrom: seq<nat>

    ghost var Arrivals: set<nat>    // packets received as they were sent
    ghost var Given: seq<nat>       // packets Decode has handed out

    // The columns of the matrix.
    var ColumnNumbers: seq<nat>
    var PreviousNextCheckStart: nat

    ghost predicate RowsValid()
      reads this`Recoveries, Window`History, Window`Base, Window`Count, Window`NextExpectedElement, Window`SumBase, Window`Live
    {
      Listed(Recoveries, Raw, Window.History, Window.Base, Window.Count, Window.NextExpectedElement, Window.SumBase, Window.Live)
    }

    ghost predicate RegionValid()
      reads this`Recoveries, this`Region, Window`Received, Window`Base
    {
      Checked(Region, Recoveries, Window.Received, Window.Base)
    }

    ghost predicate MatrixValid()
      reads this`Recoveries, this`Region, this`ColumnNumbers, this`PreviousNextCheckStart, Matrix
      reads Window`Received, Window`Base, Window`MatrixColumns
    {
      && Matrix.Resumable() && |Matrix.Rows| == |Matrix.Original|
      && Underlies(Region, Recoveries, Raw, Window.Received, Window.Base,
                   Matrix.Original, Matrix.LostCounts, Matrix.Columns, ColumnNumbers, Window.MatrixColumns, PreviousNextCheckStart)
    }

    constructor (raw: Draws, ghost history: seq<Gf>)
      ensures Raw == raw && Recoveries == [] && fresh(Window) && fresh(Matrix)
      ensures RowsValid() && RegionValid() && MatrixValid() && !EmergencyDisabled
      ensures Window.Valid() && Window.NextValid() && Window.SumsWhole() && Window.Count == 0 && Window.History == history && Window.Received == {}
      ensures Valid() && Window.Base == 0 && !HasRecoveredPackets && LatestColumn == 0 && RowsInOrder()
      ensures Window.SumColumnStart == Window.SumColumnCount == 0 && Arrivals == {} && Given == []
    {
      hide *;
      Raw := raw;
      Window := new DecoderPacketWindow(history);
      Matrix := new RecoveryMatrixState();
      Recoveries, LastRecoveryMetadata, LastStart, LatestColumn, EmergencyDisabled := [], NO_METADATA, 0, 0, false;
      RecoveredPackets, HasRecoveredPackets, RecoveredFrom := [], false, [];
      Arrivals, Given := {}, [];
      new;
      NoRows();
      NextParts();
      ResetRegion();
      NoOutput();
      Works();
      NoneLast();
      NoRowsInOrder();
      UsableFold();
      AccountedNone();
      WaitingIs();
      ValidFold();
    }

    lemma NoRows()
      requires Recoveries == []
      ensures RowsValid()
    {}

    lemma NoneLast()
      requires Recoveries == [] && LastRecoveryMetadata == NO_METADATA && LastStart == 0 && Window.Base == 0
      ensures LastValid()
    {}

    lemma RowsSorted()
      requires RowsValid()
      ensures Sorted(Recoveries)
    {}

    lemma RowsRanged()
      requires RowsValid()
      ensures Ranged(Recoveries, Window.Base) && Sorted(Recoveries)
      ensures forall i :: 0 <= i < |Recoveries| ==> Fits(Recoveries[i], Window.Base, Window.Count, Window.NextExpectedElement)
    {}

    method ResetRegion()
      requires Window.NextBound() && RowsValid()
      modifies this`Region, this`SolveFailed, this`ColumnNumbers, this`PreviousNextCheckStart, Matrix
      ensures RegionValid() && MatrixValid() && Region == NO_REGION && PreviousNextCheckStart == 0
    {
      hide Checked, Underlies, Listed, Fits;
      hide RecoveryMatrixState.Resumable;
      RowsRanged();
      NoRegion(Recoveries, Raw, Window.Received, Window.Base, Window.MatrixColumns);
      Region, SolveFailed := NO_REGION, false;
      Matrix.Reset();
      ColumnNumbers, PreviousNextCheckStart := [], 0;
    }

    // Gives a matrix column to each loss the region has gained.
    method PopulateColumns()
      requires Window.WindowValid() && Window.NextBound() && RowsValid() && RegionValid() && MatrixValid() && Region.recoveryCount > 0
      modifies this`ColumnNumbers, this`PreviousNextCheckStart, Window`MatrixColumns
      ensures Window.NextBound()
      ensures Columned(ColumnNumbers, Window.MatrixColumns, Window.Received, Window.Base, Region.nextCheckStart, Region.lostCount)
      ensures PreviousNextCheckStart <= Region.nextCheckStart && Region.lostCount == |Lost(Window.Received, Window.Base + PreviousNextCheckStart)|
    {
      hide Lost, Wrap, Carries, Generated, Columned, Listed, RecoveryMatrixState.Resumable;
      RowsRanged();
      ghost var received, base := Window.Received, Window.Base;
      LostPrefix(received, base + PreviousNextCheckStart, base + Region.nextCheckStart);
      if Matrix.Columns >= Region.lostCount {
        return;
      }
      var elementStart := PreviousNextCheckStart;
      PreviousNextCheckStart := Region.nextCheckStart;
      if elementStart < Region.elementStart {
        NothingLostBefore(received, base + Region.elementStart);
        LostPrefix(received, base + elementStart, base + Region.elementStart);
        elementStart := Region.elementStart;
      }
      LostPrefix(received, base + elementStart, base + Region.nextCheckStart);
      FillColumns(Matrix.Columns, elementStart);
    }

    method FillColumns(oldColumns: nat, elementStart: nat)
      requires Window.WindowValid() && Window.NextBound() && Region.nextCheckStart <= Window.Count && elementStart <= Region.nextCheckStart
      requires Region.lostCount == |Lost(Window.Received, Window.Base + Region.nextCheckStart)|
      requires oldColumns == |Lost(Window.Received, Window.Base + elementStart)| <= Region.lostCount
      requires Columned(ColumnNumbers, Window.MatrixColumns, Window.Received, Window.Base, Region.nextCheckStart, oldColumns)
      modifies this`ColumnNumbers, Window`MatrixColumns
      ensures Window.NextBound()
      ensures Columned(ColumnNumbers, Window.MatrixColumns, Window.Received, Window.Base, Region.nextCheckStart, Region.lostCount)
    {
      hide Lost, Wrap, Columned;
      ghost var received, base, l := Window.Received, Window.Base, Lost(Window.Received, Window.Base + Region.nextCheckStart);
      LostPrefix(received, base + elementStart, base + Region.nextCheckStart);
      var column: nat, element: nat := oldColumns, elementStart;
      while column < Region.lostCount
        invariant Window.Received == received && Window.Base == base
        invariant Window.NextBound() && element <= Region.nextCheckStart && Lost(received, base + element) <= l && column == |Lost(received, base + element)|
        invariant Columned(ColumnNumbers, Window.MatrixColumns, received, base, Region.nextCheckStart, column)
        decreases Region.lostCount - column
      {
        var found := Window.FindNextLostElement(element);
        NextLoss(received, base, element, found, Region.nextCheckStart);
        AddColumn(found, column);
        column, element := column + 1, found + 1;
      }
    }

    method AddColumn(element: nat, column: nat)
      requires Window.WindowValid() && Window.NextBound() && element < Window.Count
      requires Columned(ColumnNumbers, Window.MatrixColumns, Window.Received, Window.Base, Region.nextCheckStart, column)
      requires var l := Lost(Window.Received, Window.Base + Region.nextCheckStart);
               column < |l| && l[column] == Window.Base + element
      modifies this`ColumnNumbers, Window`MatrixColumns
      ensures Window.NextBound()
      ensures Columned(ColumnNumbers, Window.MatrixColumns, Window.Received, Window.Base, Region.nextCheckStart, column + 1)
    {
      hide Lost, Wrap;
      LostLists(Window.Received, Window.Base + Region.nextCheckStart);
      AddWrapped(element, Window.Base);
      ColumnNumbers := ColumnNumbers + [AddColumns(element, Window.ColumnStart)];
      Window.MatrixColumns := Window.MatrixColumns[element := column];
    }

    // The new columns of the old rows and all columns of the new rows.
    method GenerateRows(oldRows: nat, oldColumns: nat, ghost lost: seq<nat>, ghost generated: seq<Row>) returns (added: seq<Row>)
      requires Window.WindowValid() && Window.NextBound() && RowsValid() && Ranged(Recoveries, Window.Base) && oldRows <= Region.recoveryCount <= |Recoveries|
      requires Region.recoveryCount > 0 && Region.nextCheckStart == Recoveries[Region.recoveryCount - 1].elementEnd
      requires lost == Lost(Window.Received, Window.Base + Region.nextCheckStart) && oldColumns <= |lost|
      requires Columned(ColumnNumbers, Window.MatrixColumns, Window.Received, Window.Base, Region.nextCheckStart, |lost|)
      requires generated == MatrixRows(Recoveries, Region.recoveryCount, Raw, Window.Base, lost)
      ensures |added| == Region.recoveryCount
      ensures forall i :: 0 <= i < Region.recoveryCount ==> added[i] == if i < oldRows then generated[i][oldColumns..] else generated[i]
    {
      hide Lost, Wrap, Carries, EntryRow, After, Indexed;
      added := [];
      for i := 0 to Region.recoveryCount
        invariant |added| == i
        invariant forall k :: 0 <= k < i ==> added[k] == if k < oldRows then generated[k][oldColumns..] else generated[k]
      {
        var startMatrixColumn := if i < oldRows then oldColumns else 0;
        ghost var start := StartOf(Recoveries[i], Window.Base);
        RowReady(Recoveries[i], Window.Base, Window.Count, Window.NextExpectedElement, Window.Originals, Window.Received, ColumnNumbers,
                Window.MatrixColumns, Region.nextCheckStart);
        EntryPrefix(Raw, Recoveries[i].metadata, start, lost, startMatrixColumn);
        var row := GenerateRow(Window, Raw, Recoveries[i], ColumnNumbers, startMatrixColumn, lost, start);
        assert generated[i][0..] == generated[i];
        added := added + [row];
      }
    }

    // Brings the matrix up to the whole checked region.
    method GenerateMatrix()
      requires Window.WindowValid() && Window.NextValid() && RowsValid() && RegionValid() && MatrixValid() && Region.recoveryCount > 0
      modifies this`ColumnNumbers, this`PreviousNextCheckStart, Window`MatrixColumns, Matrix
      ensures Window.NextValid() && RowsValid() && RegionValid() && MatrixValid()
      ensures |Matrix.Rows| == Region.recoveryCount && Matrix.Columns == Region.lostCount
    {
      hide Lost, Carries, EntryRow, Columned, Generates, Generated, Fits;
      hide RowsValid, RecoveryMatrixState.Resumable, DecoderPacketWindow.WindowValid;
      var oldRows, oldColumns := |Matrix.Rows|, Matrix.Columns;
      ghost var received, base := Window.Received, Window.Base;
      ghost var l := Lost(received, base + Region.nextCheckStart);
      RowsRanged();
      LostPrefix(received, base + PreviousNextCheckStart, base + Region.nextCheckStart);
      PopulateColumns();
      ghost var generated := MatrixRows(Recoveries, Region.recoveryCount, Raw, base, l);
      GeneratedGrows(Recoveries, oldRows, Region.recoveryCount, Raw, received, base, Region.nextCheckStart, Matrix.Original, Matrix.LostCounts, oldColumns);
      var added := GenerateRows(oldRows, oldColumns, l, generated);
      Matrix.GenerateMatrix(added, Counts(Recoveries, Region.recoveryCount), Region.lostCount, generated);
    }

    // Once everything before element `end` is there, the sums will have passed
    // over received packets only.
    ghost predicate WholeBefore(end: nat)
      reads Window
    {
      Window.SumsWhole() || (Window.Live && Window.SumBase + Window.SumColumnCount <= Window.Base + end)
    }

    // What is known of the last recovery packet received in order.
    ghost predicate LastValid()
      reads this`LastRecoveryMetadata, this`LastStart, this`Recoveries, Window`Base, Window`NextExpectedElement, Window`SumBase, Window`Live
    {
      LastKept(LastRecoveryMetadata, LastStart, Recoveries, Window.Base, Window.NextExpectedElement, Window.SumBase, Window.Live)
    }

    lemma LastParts()
      requires LastValid()
      ensures LastKept(LastRecoveryMetadata, LastStart, Recoveries, Window.Base, Window.NextExpectedElement, Window.SumBase, Window.Live)
    {
      hide LastKept;
    }

    lemma LastFold()
      requires LastKept(LastRecoveryMetadata, LastStart, Recoveries, Window.Base, Window.NextExpectedElement, Window.SumBase, Window.Live)
      ensures LastValid()
    {
      hide LastKept;
    }

    // The payload of a listed row less everything received of it. False if its
    // sum cannot be formed any more.
    method EliminateReceived(r: Recovery, ghost i: nat, ghost end: nat) returns (ok: bool, v: Gf)
      requires Window.Valid() && RowsValid() && i < |Recoveries| && r == Recoveries[i] && r.elementEnd <= end
      modifies Window`Sums, Window`RecoveredColumns, Window`Pending, Window`SumBase, Window`SumColumnStart, Window`SumColumnCount, Window`Live
      ensures Window.Valid()
      ensures ok <==> CanForm(r, Window.Base, old(Window.RunningSums()))
      ensures ok ==> Window.RunningSums() == if IsSiamese(r) then SumsAt(StartOf(r, Window.Base), r.metadata.sumCount) else old(Window.RunningSums())
      ensures ok ==> RowsValid()
      ensures ok && old(WholeBefore(end)) ==> WholeBefore(end)
      ensures ok && old(LastValid()) ==> LastValid()
      ensures ok ==> v == Add(r.payload, Dot(CoefficientRow(Raw, r.metadata),
                              Mask(Window.History, Window.Received)[StartOf(r, Window.Base)..StartOf(r, Window.Base) + r.metadata.sumCount]))
    {
      hide Wrap, Carries, AllHold, AllStale, EndsBefore, CoefficientRow, Dot, Mask, Add;
      ghost var start := StartOf(r, Window.Base);
      assert Fits(r, Window.Base, Window.Count, Window.NextExpectedElement);
      if r.metadata.sumCount <= CAUCHY_THRESHOLD {
        v := EliminateShort(Window, Raw, r, start);
        ok := true;
      } else {
        ok, v := Window.EliminateSiamese(Raw, r.metadata, r.elementEnd, r.payload, start);
        if ok {
          ListedUsed(Recoveries, Raw, Window.History, Window.Base, Window.Count, Window.NextExpectedElement, old(Window.SumBase), old(Window.Live), i);
        }
      }
    }

    // Whichever rows are used, their sums can be formed.
    ghost predicate RowsServed()
      reads this`Recoveries, Window`Base, Window`SumBase, Window`SumColumnCount
    {
      Served(Recoveries, Window.Base, Window.RunningSums())
    }

    ghost predicate RowsInOrder()
      reads this`Recoveries, Window`Base, Window`SumBase, Window`SumColumnCount
    {
      Orderly(Recoveries, Window.Base, Window.RunningSums())
    }

    lemma NoRowsInOrder()
      requires Recoveries == []
      ensures RowsInOrder()
    {}

    // They are once those that end by the region's end, or later, have been dropped.
    ghost predicate PastInOrder()
      reads this`Recoveries, this`Region, Window`Base, Window`SumBase, Window`SumColumnCount
    {
      forall e :: e >= Region.nextCheckStart ==> Orderly(DeletedBefore(Recoveries, e), Window.Base, Window.RunningSums())
    }

    // Which rows of the matrix are used for the solution.
    ghost function Used(): (used: seq<bool>)
      reads Matrix`Rows
      ensures |used| == |Matrix.Rows| && forall i :: 0 <= i < |used| ==> used[i] == Matrix.Rows[i].usedForSolution
    {
      var rows := Matrix.Rows;
      seq(|rows|, i requires 0 <= i < |rows| => rows[i].usedForSolution)
    }

    // The sums of all rows used can be formed.
    ghost predicate SumsForm()
      reads this`Recoveries, this`Region, Matrix`Rows, Window`Base, Window`SumBase, Window`SumColumnCount
    {
      AllForm(Recoveries, Used(), Region.recoveryCount, Window.Base, Window.RunningSums())
    }

    // The matrix is that of the region's packets and losses, and x the data lost.
    ghost predicate Solves(x: Row)
      reads this`Recoveries, this`Region, Matrix`Rows, Matrix`Original, Window`Received, Window`Base, Window`History
    {
      var l := Lost(Window.Received, Window.Base + Region.nextCheckStart);
      && 0 < Region.recoveryCount == |Matrix.Rows| <= |Recoveries| && Ranged(Recoveries, Window.Base)
      && Region.nextCheckStart == Recoveries[Region.recoveryCount - 1].elementEnd
      && Lists(l, Window.Received, Window.Base + Region.nextCheckStart)
      && Matrix.Original == MatrixRows(Recoveries, Region.recoveryCount, Raw, Window.Base, l)
      && (forall j :: 0 <= j < |l| ==> l[j] < |Window.History|) && x == Data(Window.History, l)
    }

    lemma SolvesParts(x: Row)
      requires Solves(x)
      ensures 0 < Region.recoveryCount == |Matrix.Rows| == |Matrix.Original| <= |Recoveries|
    {
      hide Lost, Lists, MatrixRows, Ranged, Data;
    }

    // One payload used for the solution, less what was received of it: the matrix row
    // times the lost data.
    method EliminateUsed(i: nat, ghost x: Row) returns (ok: bool, v: Gf)
      requires Window.Valid() && RowsValid() && Solves(x) && i < Region.recoveryCount
      modifies Window`Sums, Window`RecoveredColumns, Window`Pending, Window`SumBase, Window`SumColumnStart, Window`SumColumnCount, Window`Live
      ensures Window.Valid() && (ok ==> RowsValid())
      ensures i < |Recoveries| && i < |Matrix.Original|
      ensures ok <==> CanForm(Recoveries[i], Window.Base, old(Window.RunningSums()))
      ensures ok ==> Window.RunningSums() == if IsSiamese(Recoveries[i]) then SumsAt(StartOf(Recoveries[i], Window.Base), Recoveries[i].metadata.sumCount)
                                             else old(Window.RunningSums())
      ensures ok && old(WholeBefore(Region.nextCheckStart)) ==> WholeBefore(Region.nextCheckStart)
      ensures ok && old(LastValid()) ==> LastValid()
      ensures ok ==> |Matrix.Original[i]| == |x| && v == Dot(Matrix.Original[i], x)
    {
      hide Lost, Lists, Data, EntryRow, Dot, CoefficientRow, Mask, Add, Fits, Wrap;
      hide LastValid, WholeBefore, CanForm, DecoderPacketWindow.RunningSums, DecoderPacketWindow.Valid;
      var r := Recoveries[i];
      ghost var start := StartOf(r, Window.Base);
      assert Sound(r, Raw, Window.History, Window.Base, Window.Count, Window.NextExpectedElement, Window.SumBase, Window.Live);
      ReceivedCancelled(Raw, r.metadata, start, Window.History, Window.Received, Window.Base + Region.nextCheckStart, r.payload);
      ok, v := EliminateReceived(r, i, Region.nextCheckStart);
    }

    // Takes what was received out of all payloads used for the solution.
    method EliminateOriginalData(payload: array<Gf>, ghost x: Row) returns (ok: bool)
      requires Window.Valid() && RowsValid() && Solves(x) && Region.recoveryCount == payload.Length <= |Recoveries|
      requires forall i :: 0 <= i < Region.recoveryCount ==> payload[i] == Recoveries[i].payload
      requires WholeBefore(Region.nextCheckStart) && LastValid()
      modifies payload
      modifies Window`Sums, Window`RecoveredColumns, Window`Pending, Window`SumBase, Window`SumColumnStart, Window`SumColumnCount, Window`Live
      ensures Window.Valid()
      ensures ok ==> RowsValid() && WholeBefore(Region.nextCheckStart) && LastValid()
      ensures ok <==> old(SumsForm())
      ensures |Recoveries| >= Region.recoveryCount == |Matrix.Rows| == |Matrix.Original|
      ensures ok ==> Window.RunningSums() == SumsAfter(Recoveries, Used(), Window.Base, old(Window.RunningSums()), Region.recoveryCount)
      ensures ok ==> forall i :: 0 <= i < Region.recoveryCount && Matrix.Rows[i].usedForSolution ==>
                       |Matrix.Original[i]| == |x| && payload[i] == Dot(Matrix.Original[i], x)
    {
      hide *;
      SolvesParts(x);
      SumsFormIs();
      ghost var used, sums := Used(), Window.RunningSums();
      FormsNone(Recoveries, used, Window.Base, sums);
      for i := 0 to Region.recoveryCount
        invariant AllForm(Recoveries, used, i, Window.Base, sums)
        invariant Window.RunningSums() == SumsAfter(Recoveries, used, Window.Base, sums, i)
        invariant Window.Valid() && RowsValid() && WholeBefore(Region.nextCheckStart) && LastValid()
        invariant forall k :: 0 <= k < i && Matrix.Rows[k].usedForSolution ==>
                    |Matrix.Original[k]| == |x| && payload[k] == Dot(Matrix.Original[k], x)
      {
        FormsNext(Recoveries, used, i, Region.recoveryCount, Window.Base, sums);
        if Matrix.Rows[i].usedForSolution {
          var v;
          ok, v := EliminateUsed(i, x);
          if !ok {
            return;
          }
          payload[i] := v;
        }
      }
      ok := true;
    }

    lemma SumsFormIs()
      ensures SumsForm() <==> AllForm(Recoveries, Used(), Region.recoveryCount, Window.Base, Window.RunningSums())
    {
      hide AllForm;
    }

    // Drops the recovery packets the next expected element has passed.
    method DeletePacketsBefore(ghost oldNext: nat)
      requires Listed(Recoveries, Raw, Window.History, Window.Base, Window.Count, oldNext, Window.SumBase, Window.Live)
      requires oldNext <= Window.NextExpectedElement
      modifies this`Recoveries
      ensures RowsValid() && Recoveries == DeletedBefore(old(Recoveries), Window.NextExpectedElement) && |Recoveries| <= |old(Recoveries)|
      ensures old(LastKept(LastRecoveryMetadata, LastStart, Recoveries, Window.Base, oldNext, Window.SumBase, Window.Live)) ==> LastValid()
      ensures old(RowsInOrder()) ==> RowsInOrder()
    {
      hide Listed, LastKept, Orderly;
      if RowsInOrder() {
        ListedSorted(Recoveries, Raw, Window.History, Window.Base, Window.Count, oldNext, Window.SumBase, Window.Live);
        DeletedInOrder(Recoveries, Window.Base, Window.RunningSums(), Window.NextExpectedElement);
      }
      if LastKept(LastRecoveryMetadata, LastStart, Recoveries, Window.Base, oldNext, Window.SumBase, Window.Live) {
        ListedSorted(Recoveries, Raw, Window.History, Window.Base, Window.Count, oldNext, Window.SumBase, Window.Live);
        LastDeleted(LastRecoveryMetadata, LastStart, Recoveries, Window.Base, oldNext, Window.SumBase, Window.Live, Window.NextExpectedElement);
      }
      ListedDeleted(Recoveries, Raw, Window.History, Window.Base, Window.Count, oldNext, Window.SumBase, Window.Live, Window.NextExpectedElement);
      Recoveries := DeletedBefore(Recoveries, Window.NextExpectedElement);
    }

    lemma WindowSize()
      requires Window.WindowValid()
      ensures Window.Count <= COLUMN_PERIOD / 2
    {
      hide Wrap;
    }

    // No elements were removed.
    lemma NothingMoved(sound: bool, ordered: bool)
      requires Listed(Recoveries, Raw, Window.History, Window.Base, Window.Count, Window.NextExpectedElement, Window.SumBase, Window.Live)
      requires LastKept(LastRecoveryMetadata, LastStart, Recoveries, Window.Base, Window.NextExpectedElement, Window.SumBase, Window.Live)
      requires sound ==> Checked(Region, Recoveries, Window.Received, Window.Base) && Matrix.Resumable() && |Matrix.Rows| == |Matrix.Original|
      requires sound ==> Underlies(Region, Recoveries, Raw, Window.Received, Window.Base, Matrix.Original, Matrix.LostCounts, Matrix.Columns,
                                   ColumnNumbers, Window.MatrixColumns, PreviousNextCheckStart)
      requires ordered ==> Window.OrderMoved(Recoveries, 0)
      ensures RowsValid() && LastValid() && SamePackets(Recoveries, Window.Base, Recoveries, Window.Base)
      ensures sound ==> RegionValid() && MatrixValid()
      ensures ordered ==> RowsInOrder()
    {
      hide *;
      UnmovedPackets(Recoveries, Window.Base);
      LastFold();
      RowsFold();
      if ordered {
        StillInOrder(Recoveries, 0);
      }
      if sound {
        RegionFold();
        MatrixFold();
      }
    }

    lemma OrderIs()
      ensures RowsInOrder() <==> Orderly(Recoveries, Window.Base, Window.RunningSums())
    {
      hide Orderly;
    }

    lemma StillInOrder(recs: seq<Recovery>, removed: nat)
      requires Window.OrderMoved(recs, removed) && forall r :: r in recs ==> removed <= r.elementStart && removed <= r.elementEnd
      requires if removed == 0 then Recoveries == recs else Recoveries == Moved(recs, removed)
      ensures RowsInOrder()
    {
      hide Orderly;
      if removed == 0 {
        assert Moved(recs, 0) == recs by {
          assert forall r :: r in recs ==> r.(elementStart := r.elementStart - 0, elementEnd := r.elementEnd - 0) == r;
        }
      }
    }

    lemma BeforeRemoval()
      requires Window.Valid() && Window.NextValid() && RowsValid() && LastValid()
      ensures Window.NextBound() && |Window.MatrixColumns| == Window.Count && Window.NextExpectedElement <= Window.Count <= COLUMN_PERIOD / 2
      ensures Listed(Recoveries, Raw, Window.History, Window.Base, Window.Count, Window.NextExpectedElement, Window.SumBase, Window.Live)
      ensures Window.RowsFit(Recoveries) && forall r :: r in Recoveries ==> r.elementEnd <= Window.Count
      ensures LastKept(LastRecoveryMetadata, LastStart, Recoveries, Window.Base, Window.NextExpectedElement, Window.SumBase, Window.Live)
      ensures Recoveries == [] ==> Window.LastFits(LastRecoveryMetadata, LastStart)
      ensures Window.Live ==> Window.Base <= Window.SumBase + MAX_PACKETS && Window.SumBase <= Window.Base + Window.Count
    {
      hide *;
      NextParts();
      WindowPieces();
      WindowSize();
      RowsListed();
      RowsFitWindow();
      RowsEnd();
      LastParts();
      LastFitsNow();
      SumStart();
    }

    lemma RowsEnd()
      requires RowsValid()
      ensures forall r :: r in Recoveries ==> r.elementEnd <= Window.Count
    {
      hide Carries, Wrap, ValidMetadata, Near;
    }

    lemma SumStart()
      requires Window.Valid() && Window.NextBound()
      ensures Window.Live ==> Window.Base <= Window.SumBase + MAX_PACKETS && Window.SumBase <= Window.Base + Window.Count
      ensures Window.NextExpectedElement <= Window.Count
    {
      hide AllHold, AllStale, EndsBefore, Wrap;
    }

    lemma RowsFitWindow()
      requires RowsValid()
      ensures Window.RowsFit(Recoveries)
    {
      hide Carries, Wrap, ValidMetadata;
    }

    method RemoveElements()
      requires Window.Valid() && Window.NextValid() && Window.SumsWhole() && RowsValid() && LastValid() && !EmergencyDisabled
      modifies this`Recoveries, this`EmergencyDisabled, Window
      modifies this`Region, this`SolveFailed, this`ColumnNumbers, this`PreviousNextCheckStart, Matrix
      ensures Window.Received == old(Window.Received) && Window.History == old(Window.History)
      ensures !EmergencyDisabled ==> Window.Valid() && Window.NextValid() && Window.SumsWhole() && RowsValid() && LastValid()
      ensures !EmergencyDisabled && old(RegionValid() && MatrixValid()) ==> RegionValid() && MatrixValid()
      ensures !EmergencyDisabled ==> SamePackets(old(Recoveries), old(Window.Base), Recoveries, Window.Base)
      ensures !EmergencyDisabled ==> Window.Base + Window.Count == old(Window.Base + Window.Count)
      ensures !EmergencyDisabled ==> Trimmed()
      ensures !EmergencyDisabled ==> Region == RegionMoved(old(Region), Window.Base - old(Window.Base))
      ensures !EmergencyDisabled ==> Window.Base - old(Window.Base) == old(Window.NextExpectedElement) - Window.NextExpectedElement >= 0
      ensures EmergencyDisabled ==> Recoveries == old(Recoveries)
      ensures old(RowsInOrder()) && !EmergencyDisabled ==> RowsInOrder()
      ensures old(Recoveries != [] && RowsInOrder()) ==> !EmergencyDisabled
      ensures old(Recoveries == []) ==> (EmergencyDisabled <==> old(Window.LastClips(LastRecoveryMetadata, LastStart)))
      ensures old(Recoveries == []) && !EmergencyDisabled ==>
                MovedFront(LastRecoveryMetadata, old(Window.Base), old(Window.LastRemoves(LastRecoveryMetadata, LastStart)),
                    old(Window.SumColumnStart), old(Window.SumColumnCount))
    {
      hide *;
      ghost var recs, count, next, sound := Recoveries, Window.Count, Window.NextExpectedElement, RegionValid() && MatrixValid();
      ghost var base, sumBase, live, matrixColumns := Window.Base, Window.SumBase, Window.Live, Window.MatrixColumns;
      ghost var sumColumnStart, sumColumnCount := Window.SumColumnStart, Window.SumColumnCount;
      if sound {
        MatrixUnderlies();
      }
      BeforeRemoval();
      RowsSorted();
      ghost var ordered := Recoveries != [] && RowsInOrder();
      OrderIs();
      var ok, removed := Window.RemoveElements(Recoveries, LastRecoveryMetadata, LastStart);
      if !ok {
        EmergencyDisabled := true;
        return;
      }
      MovedFrontFold(LastRecoveryMetadata, base, removed, sumColumnStart, sumColumnCount, Recoveries == []);
      if removed == 0 {
        assert matrixColumns[0..] == matrixColumns;
        NothingMoved(sound, ordered);
        NowTrimmed(recs, base, next, removed);
        return;
      }
      NextParts();
      ListMoved(LastRecoveryMetadata, LastStart, recs, Raw, Window.History, base, count, next, sumBase, live, removed, Window.SumBase, Window.Live);
      MoveRecoveries(removed, ordered, sound, base, matrixColumns);
      NowTrimmed(recs, base, next, removed);
    }

    // Little more could be dropped: a row listed still needs one of the first elements.
    // With none listed, the last packet in order decides (MovedFront).
    ghost predicate Trimmed()
      reads this`Recoveries, Window`Base, Window`NextExpectedElement
    {
      || Recoveries == [] || Window.NextExpectedElement < DECODER_REMOVE_THRESHOLD
      || SomeNeeds(Recoveries, Window.Base, DECODER_REMOVE_THRESHOLD)
    }

    lemma NowTrimmed(recs: seq<Recovery>, base: nat, next: nat, removed: nat)
      requires Window.Base == base + removed && Window.NextExpectedElement == next - removed
      requires recs != [] && next >= DECODER_REMOVE_THRESHOLD ==> SomeNeeds(recs, base, removed + DECODER_REMOVE_THRESHOLD)
      requires if removed == 0 then Recoveries == recs
               else (forall r :: r in recs ==> removed <= r.elementStart && removed <= r.elementEnd) && Recoveries == Moved(recs, removed)
      ensures Trimmed() && (Recoveries == [] ==> RowsInOrder()) && RegionMoved(Region, 0) == Region
    {
      hide SomeNeeds;
      if recs != [] && next >= DECODER_REMOVE_THRESHOLD && removed > 0 {
        MovedNeeds(recs, base, removed, DECODER_REMOVE_THRESHOLD);
      }
    }

    // That many elements have left the window; a packet without a sum has at most
    // stopped the sums.
    ghost predicate MovedFront(last: Metadata, base: nat, removed: nat, sumColumnStart: nat, sumColumnCount: nat)
      reads Window`Base, Window`SumColumnStart, Window`SumColumnCount
    {
      && Window.Base == base + removed
      && (last.sumCount <= CAUCHY_THRESHOLD ==>
            Window.SumColumnStart == sumColumnStart && (Window.SumColumnCount == 0 || Window.SumColumnCount == sumColumnCount))
    }

    lemma MovedFrontParts(last: Metadata, base: nat, removed: nat, sumColumnStart: nat, sumColumnCount: nat)
      requires MovedFront(last, base, removed, sumColumnStart, sumColumnCount)
      ensures Window.Base == base + removed
      ensures last.sumCount <= CAUCHY_THRESHOLD ==>
                Window.SumColumnStart == sumColumnStart && (Window.SumColumnCount == 0 || Window.SumColumnCount == sumColumnCount)
    {}

    lemma MovedFrontFold(last: Metadata, base: nat, removed: nat, sumColumnStart: nat, sumColumnCount: nat, alone: bool)
      requires alone ==> Window.Base == base + removed
      requires alone && last.sumCount <= CAUCHY_THRESHOLD ==>
                 Window.SumColumnStart == sumColumnStart && (Window.SumColumnCount == 0 || Window.SumColumnCount == sumColumnCount)
      ensures alone ==> MovedFront(last, base, removed, sumColumnStart, sumColumnCount)
    {}

    // The recovery packets count from the new front of the window.
    method MoveRecoveries(removed: nat, ghost ordered: bool, ghost sound: bool, ghost base: nat, ghost matrixColumns: seq<nat>)
      requires Window.NextBound() && 0 < removed <= |matrixColumns|
      requires Window.Base == base + removed && Window.MatrixColumns == matrixColumns[removed..]
      requires forall r :: r in Recoveries ==> removed <= r.elementStart && removed <= r.elementEnd
      requires var l := Moved(Recoveries, removed);
               && Listed(l, Raw, Window.History, Window.Base, Window.Count, Window.NextExpectedElement, Window.SumBase, Window.Live)
               && LastKept(LastRecoveryMetadata, LastStart, l, Window.Base, Window.NextExpectedElement, Window.SumBase, Window.Live)
      requires ordered ==> Window.OrderMoved(Recoveries, removed)
      requires sound ==> Checked(Region, Recoveries, Window.Received, base) && Matrix.Resumable() && |Matrix.Rows| == |Matrix.Original|
      requires sound ==> Underlies(Region, Recoveries, Raw, Window.Received, base, Matrix.Original, Matrix.LostCounts, Matrix.Columns,
                                   ColumnNumbers, matrixColumns, PreviousNextCheckStart)
      modifies this`Recoveries, this`Region, this`SolveFailed, this`ColumnNumbers, this`PreviousNextCheckStart, Matrix
      ensures Recoveries == Moved(old(Recoveries), removed) && RowsValid() && LastValid()
      ensures Region == RegionMoved(old(Region), removed)
      ensures sound ==> RegionValid() && MatrixValid()
      ensures ordered ==> RowsInOrder()
    {
      hide *;
      ghost var recs := Recoveries;
      Recoveries := Moved(Recoveries, removed);
      if ordered {
        StillInOrder(recs, removed);
      }
      LastFold();
      RowsFold();
      DecrementElementCounters(removed, recs, sound, base, matrixColumns);
    }

    // A region that starts where the front is now, or later, is the same region.
    ghost function RegionMoved(region: CheckedRegion, removed: int): CheckedRegion {
      if removed <= 0 then region else if removed <= region.elementStart && removed <= region.nextCheckStart then Shifted(region, removed) else NO_REGION
    }

    // The window has moved on: the counters of the region follow.
    method DecrementElementCounters(removed: nat, ghost recs: seq<Recovery>, ghost sound: bool, ghost base: nat, ghost matrixColumns: seq<nat>)
      requires Window.NextBound() && RowsValid() && removed > 0 && removed <= |matrixColumns|
      requires Window.Base == base + removed && Window.MatrixColumns == matrixColumns[removed..]
      requires forall r :: r in recs ==> removed <= r.elementStart && removed <= r.elementEnd
      requires Recoveries == Moved(recs, removed)
      requires sound ==> Checked(Region, recs, Window.Received, base) && Matrix.Resumable() && |Matrix.Rows| == |Matrix.Original|
      requires sound ==> Underlies(Region, recs, Raw, Window.Received, base, Matrix.Original, Matrix.LostCounts, Matrix.Columns,
                                   ColumnNumbers, matrixColumns, PreviousNextCheckStart)
      modifies this`Region, this`SolveFailed, this`ColumnNumbers, this`PreviousNextCheckStart, Matrix
      ensures sound ==> RegionValid() && MatrixValid()
      ensures Region == RegionMoved(old(Region), removed)
    {
      hide Underlies, Listed, Counted;
      hide RecoveryMatrixState.Resumable;
      if Region.elementStart < removed || Region.nextCheckStart < removed {
        ResetRegion();
      } else {
        if sound {
          RegionShifted(Region, recs, Raw, Window.Received, base, Matrix.Original, Matrix.LostCounts, Matrix.Columns,
                        ColumnNumbers, matrixColumns, PreviousNextCheckStart, removed);
        }
        Region := Shifted(Region, removed);
      }
      PreviousNextCheckStart := if PreviousNextCheckStart > removed then PreviousNextCheckStart - removed else 0;
    }

    // Files the solution, last column first; true if it fills the next expected
    // element.
    method FileRecovered(recovered: array<Gf>, ghost l: seq<nat>) returns (isNext: bool, packets: seq<Original>)
      requires Window.Valid() && Window.NextValid()
      requires Numbers(ColumnNumbers, l) && forall i, j :: 0 <= i < j < |l| ==> l[i] < l[j]
      requires forall j :: 0 <= j < |l| ==> l[j] !in Window.Received && Window.Base <= l[j] < Window.Base + Window.Count && l[j] < |Window.History|
      requires recovered[..] == Data(Window.History, l)
      modifies Window`Originals, Window`RecoveredColumns, Window`Received, Window`Pending
      ensures Window.Valid() && Window.NextBound()
      ensures Window.Received == old(Window.Received) + Elements(l)
      ensures old(WholeBefore(Region.nextCheckStart)) ==> WholeBefore(Region.nextCheckStart)
      ensures isNext <==> Window.Base + Window.NextExpectedElement in l
      ensures packets == Reported(l, Window.History)
    {
      hide Wrap, Reported, Data, Elements;
      hide Filed, WholeBefore, DecoderPacketWindow.Valid, DecoderPacketWindow.NextValid;
      ghost var received, whole := Window.Received, WholeBefore(Region.nextCheckStart);
      isNext, packets := false, [];
      FileStart(l, received);
      NoneFiled();
      for col := |ColumnNumbers| downto 0
        invariant Filed(received + Elements(l[col..]), l[col..], isNext, packets) && (whole ==> WholeBefore(Region.nextCheckStart))
      {
        FileStep(l, received, col);
        DataAt(Window.History, l, col);
        isNext, packets := FileOne(ColumnNumbers[col], recovered[..][col], isNext, packets, l[col], l[col + 1..], received + Elements(l[col + 1..]));
      }
      assert l[0..] == l;
      FiledFacts(received + Elements(l), l, isNext, packets);
    }

    // The packets of `rest` have been filed.
    ghost predicate Filed(received: set<nat>, rest: seq<nat>, isNext: bool, packets: seq<Original>)
      reads Window
    {
      && Window.WindowValid() && Window.NextBound() && Window.PendingValid() && Window.SumsValid() && Window.StartValid()
      && Window.Received == received
      && (isNext <==> Window.Base + Window.NextExpectedElement in rest)
      && packets == Reported(rest, Window.History)
    }

    lemma NoneFiled()
      requires Window.Valid() && Window.NextValid()
      ensures Filed(Window.Received, [], false, [])
    {
      NoneReported(Window.History);
    }

    lemma FiledFacts(received: set<nat>, rest: seq<nat>, isNext: bool, packets: seq<Original>)
      requires Filed(received, rest, isNext, packets)
      ensures Window.Valid() && Window.NextBound() && Window.Received == received
      ensures isNext <==> Window.Base + Window.NextExpectedElement in rest
      ensures packets == Reported(rest, Window.History)
    {}

    method FileOne(column: nat, value: Gf, isNext: bool, packets: seq<Original>, ghost a: nat, ghost rest: seq<nat>, ghost received: set<nat>)
      returns (isNext': bool, packets': seq<Original>)
      requires Filed(received, rest, isNext, packets)
      requires a !in received && Window.Base <= a < Window.Base + Window.Count && a < |Window.History|
      requires column == Wrap(a) && value == Window.History[a]
      modifies Window`Originals, Window`RecoveredColumns, Window`Received, Window`Pending
      ensures Filed(received + {a}, [a] + rest, isNext', packets')
      ensures old(WholeBefore(Region.nextCheckStart)) ==> WholeBefore(Region.nextCheckStart)
    {
      hide Wrap, Reported, AllHold, AllStale, AllWhole, EndsBefore;
      var next := Window.MarkRecovered(column, value, a);
      OneReported(a, rest, Window.History);
      isNext', packets' := isNext || next, [Original(column, value)] + packets;
    }

    ghost predicate Working()
      reads this`Recoveries, this`Region, this`ColumnNumbers, this`PreviousNextCheckStart, Window, Matrix
    {
      && Window.Valid() && Window.NextValid() && Window.SumsWhole()
      && RowsValid() && RegionValid() && MatrixValid()
    }

    // The losses of the region, all in the window.
    ghost predicate Missing(l: seq<nat>)
      reads this`Region, Window`Received, Window`Base, Window`Count, Window`History, Window`NextExpectedElement
    {
      && l == Lost(Window.Received, Window.Base + Region.nextCheckStart) && Lists(l, Window.Received, Window.Base + Region.nextCheckStart)
      && (forall j :: 0 <= j < |l| ==> Window.Base <= l[j] < |Window.History|)
      && 0 < |l| && Window.NextExpectedElement < Region.nextCheckStart <= Window.Count
    }

    // The matrix of the region's packets and losses has been solved.
    ghost predicate SolvedFor(l: seq<nat>)
      reads this`Recoveries, this`Region, this`ColumnNumbers, Window`Base, Matrix
    {
      && Matrix.Solved() && 0 < Region.recoveryCount == |Matrix.Rows| && Matrix.Columns == |l|
      && Region.recoveryCount <= |Recoveries| && Ranged(Recoveries, Window.Base)
      && Matrix.Original == MatrixRows(Recoveries, Region.recoveryCount, Raw, Window.Base, l) && Numbers(ColumnNumbers, l)
    }

    // Recovers the data of all columns of a solved matrix.
    method SolvePayloads(ghost l: seq<nat>) returns (ok: bool, recovered: array<Gf>)
      requires Window.Valid() && RowsValid() && RegionValid() && LastValid() && WholeBefore(Region.nextCheckStart)
      requires SolvedFor(l) && Missing(l)
      modifies Window`Sums, Window`RecoveredColumns, Window`Pending, Window`SumBase, Window`SumColumnStart, Window`SumColumnCount, Window`Live
      ensures Window.Valid()
      ensures ok ==> RowsValid() && WholeBefore(Region.nextCheckStart) && LastValid()
      ensures ok ==> recovered[..] == Data(Window.History, l)
      ensures ok <==> old(SumsForm())
      ensures ok && old(RowsInOrder()) ==> PastInOrder()
    {
      hide *;
      SolvesFold(l);
      OrderIs();
      ghost var ordered, used, sums := RowsInOrder(), Used(), Window.RunningSums();
      var recs := Recoveries;
      var payload := new Gf[Region.recoveryCount](i requires 0 <= i < |recs| => recs[i].payload);
      recovered := new Gf[Matrix.Columns](_ => ZERO);
      ghost var x := Data(Window.History, l);
      ok := EliminateOriginalData(payload, x);
      if !ok {
        return;
      }
      if ordered {
        StillPastInOrder(used, sums);
      }
      UsedRowsCarry(Matrix, payload, x);
      MultiplyLowerTriangle(Matrix, payload, x);
      BackSubstitution(Matrix, payload, recovered, x);
    }

    lemma StillPastInOrder(used: seq<bool>, sums: SumsAt)
      requires RowsValid() && RegionValid() && 0 < Region.recoveryCount <= |Recoveries| && Region.recoveryCount <= |used|
      requires Orderly(Recoveries, Window.Base, sums)
      requires Window.RunningSums() == SumsAfter(Recoveries, used, Window.Base, sums, Region.recoveryCount)
      ensures PastInOrder()
    {
      hide Orderly, SumsAfter, DeletedBefore, Lost, Sound;
      forall e | e >= Region.nextCheckStart ensures Orderly(DeletedBefore(Recoveries, e), Window.Base, Window.RunningSums()) {
        EliminatedInOrder(Recoveries, used, Region.recoveryCount, Window.Base, sums, e);
      }
    }

    lemma SolvesFold(l: seq<nat>)
      requires SolvedFor(l) && Missing(l) && RegionValid()
      ensures forall j :: 0 <= j < |l| ==> l[j] < |Window.History|
      ensures Solves(Data(Window.History, l)) && Matrix.Solved() && 0 < Matrix.Columns == |l|
      ensures 0 < Region.recoveryCount == |Matrix.Rows| == |Matrix.Original| && Region.recoveryCount <= |Recoveries|
    {
      hide Lost, Lists, MatrixRows, Ranged, Triangular, ZeroTails;
    }

    // Files the solution: everything before the end of the region is there now.
    method FileAll(recovered: array<Gf>, ghost l: seq<nat>) returns (packets: seq<Original>)
      requires Window.Valid() && Window.NextValid() && WholeBefore(Region.nextCheckStart)
      requires Missing(l) && Numbers(ColumnNumbers, l) && recovered[..] == Data(Window.History, l)
      modifies Window`Originals, Window`RecoveredColumns, Window`Received, Window`Pending
      ensures Window.Valid() && Window.NextBound() && Window.SumsWhole()
      ensures Window.Received == old(Window.Received) + Elements(l)
      ensures forall a: nat :: a < Window.Base + Region.nextCheckStart ==> a in Window.Received
      ensures packets == Reported(l, Window.History)
    {
      hide *;
      MissingParts(l);
      AllReceived(l, Window.Received, Window.Base + Region.nextCheckStart);
      ListsFacts(l, Window.Received, Window.Base + Region.nextCheckStart);
      NextIsLost();
      NextParts();
      var isNext;
      isNext, packets := FileRecovered(recovered, l);
      // The source disables the decoder here if the next expected packet was not recovered.
      assert isNext;
      FiledWhole();
    }

    lemma MissingParts(l: seq<nat>)
      requires Missing(l)
      ensures Lists(l, Window.Received, Window.Base + Region.nextCheckStart)
      ensures forall j :: 0 <= j < |l| ==> Window.Base <= l[j] < |Window.History|
      ensures Window.NextExpectedElement < Region.nextCheckStart <= Window.Count
    {
      hide Lists, Lost;
    }

    lemma NextIsLost()
      requires Window.NextValid() && Window.NextExpectedElement < Window.Count
      ensures Window.Base + Window.NextExpectedElement !in Window.Received
    {}

    // The sums were whole, or everything they have passed is there now.
    lemma FiledWhole()
      requires Window.Valid() && WholeBefore(Region.nextCheckStart)
      requires forall a: nat :: a < Window.Base + Region.nextCheckStart ==> a in Window.Received
      ensures Window.SumsWhole()
    {
      hide AllHold, AllWhole;
      if !Window.SumsWhole() {
        Window.WholeAgain();
      }
    }

    // Moves the next expected element past the region.
    method AdvancePast()
      requires Window.WindowValid() && Window.NextBound() && RowsValid() && LastValid()
      requires Window.NextExpectedElement < Region.nextCheckStart <= Window.Count
      requires forall a :: Window.Base + Window.NextExpectedElement <= a < Window.Base + Region.nextCheckStart ==> a in Window.Received
      modifies this`Recoveries, Window`NextExpectedElement
      ensures Window.NextValid() && RowsValid() && LastValid() && Window.NextExpectedElement >= Region.nextCheckStart
      ensures Recoveries == DeletedBefore(old(Recoveries), Window.NextExpectedElement)
      ensures old(PastInOrder()) ==> RowsInOrder()
    {
      hide *;
      RowsListed();
      LastParts();
      ghost var next, recs, past := Window.NextExpectedElement, Recoveries, PastInOrder();
      Window.IterateNextExpectedElement(Region.nextCheckStart);
      if past {
        PastParts(Window.NextExpectedElement);
      }
      DeletePacketsBefore(next);
      OrderIs();
    }

    lemma PastParts(e: nat)
      requires PastInOrder() && e >= Region.nextCheckStart
      ensures Orderly(DeletedBefore(Recoveries, e), Window.Base, Window.RunningSums())
    {
      hide Orderly, DeletedBefore;
    }

    lemma WindowParts()
      requires Window.Valid()
      ensures Window.WindowValid()
    {}

    // Reports the solution, then drops what is no longer needed.
    method FinishSolve(recovered: array<Gf>, ghost l: seq<nat>) returns (packets: seq<Original>)
      requires Window.Valid() && Window.NextValid() && RowsValid() && WholeBefore(Region.nextCheckStart) && LastValid() && !EmergencyDisabled
      requires Missing(l) && Numbers(ColumnNumbers, l) && recovered[..] == Data(Window.History, l)
      modifies this`Recoveries, this`EmergencyDisabled, this`Region, this`SolveFailed, this`ColumnNumbers, this`PreviousNextCheckStart, Window, Matrix
      ensures !EmergencyDisabled ==> Working() && LastValid() && Region == NO_REGION && Window.Base + Window.Count == old(Window.Base + Window.Count)
      ensures Window.Received == old(Window.Received) + Elements(l) && Window.History == old(Window.History)
      ensures packets == Reported(l, Window.History)
      ensures !EmergencyDisabled ==>
                ListKept(old(Recoveries), old(Window.Base)) && (old(Region.nextCheckStart) >= DECODER_REMOVE_THRESHOLD ==> Trimmed())
      ensures old(PastInOrder()) ==> if EmergencyDisabled then Recoveries == [] else RowsInOrder()
    {
      hide *;
      WindowParts();
      MissingParts(l);
      packets := FileAll(recovered, l);
      WindowParts();
      AdvancePast();
      NextParts();
      UnmovedPackets(Recoveries, Window.Base);
      if Region.nextCheckStart >= DECODER_REMOVE_THRESHOLD {
        RemoveElements();
      }
      if !EmergencyDisabled {
        ListKeptFold(old(Recoveries), old(Window.Base));
        NextParts();
        ResetRegion();
        Works();
      }
    }

    // The list lacks just the packets the next expected element has passed.
    ghost predicate ListKept(recs: seq<Recovery>, base: nat)
      reads this`Recoveries, Window`Base, Window`NextExpectedElement
    {
      && base <= Window.Base
      && SamePackets(DeletedBefore(recs, Window.Base - base + Window.NextExpectedElement), base, Recoveries, Window.Base)
    }

    lemma ListKeptFold(recs: seq<Recovery>, base: nat)
      requires base <= Window.Base
      requires SamePackets(DeletedBefore(recs, Window.Base - base + Window.NextExpectedElement), base, Recoveries, Window.Base)
      ensures ListKept(recs, base)
    {
      hide SamePackets, DeletedBefore;
    }

    lemma ListKeptSame(recs: seq<Recovery>, more: seq<Recovery>, base: nat)
      requires ListKept(more, base) && SameRows(recs, more)
      ensures ListKept(recs, base)
    {
      hide SamePackets, DeletedBefore, SameRows;
      var e := Window.Base - base + Window.NextExpectedElement;
      SameDeleted(recs, more, e);
      PacketsThen(DeletedBefore(recs, e), base, DeletedBefore(more, e), Recoveries, Window.Base);
    }

    lemma NextParts()
      requires Window.NextValid()
      ensures Window.NextBound()
    {}

    lemma LastFitsNow()
      requires LastKept(LastRecoveryMetadata, LastStart, Recoveries, Window.Base, Window.NextExpectedElement, Window.SumBase, Window.Live)
      ensures Recoveries == [] ==> Window.LastFits(LastRecoveryMetadata, LastStart)
    {
      hide Kept, LastApart;
    }

    lemma Works()
      requires Window.Valid() && Window.NextValid() && Window.SumsWhole() && RowsValid() && RegionValid() && MatrixValid()
      ensures Working()
    {}

    // The losses of the region, and the matrix its recovery packets make of them.
    ghost function RegionLosses(): seq<nat>
      reads this`Region, Window`Received, Window`Base
    {
      Lost(Window.Received, Window.Base + Region.nextCheckStart)
    }

    ghost predicate Solvable()
      reads this`Recoveries, this`Region, Window`Received, Window`Base
    {
      Determined(Recoveries, Region.recoveryCount, Raw, Window.Base, RegionLosses())
    }

    lemma WorkParts()
      requires Working()
      ensures Window.Valid() && Window.WindowValid() && Window.NextValid() && Window.SumsWhole()
      ensures RowsValid() && RegionValid() && MatrixValid()
      ensures Region.recoveryCount <= |Recoveries| && Ranged(Recoveries, Window.Base)
    {
      RowsRanged();
    }

    // The matrix is up to date: it is the one the region's packets make of its losses.
    lemma MatrixParts(l: seq<nat>)
      requires Window.WindowValid() && RowsValid() && RegionValid() && MatrixValid() && l == RegionLosses()
      requires 0 < Region.recoveryCount == |Matrix.Rows| && 0 < Matrix.Columns == Region.lostCount
      ensures Underlies(Region, Recoveries, Raw, Window.Received, Window.Base, Matrix.Original, Matrix.LostCounts, Matrix.Columns,
              ColumnNumbers, Window.MatrixColumns, PreviousNextCheckStart)
      ensures Matrix.Resumable() && Region.recoveryCount <= |Recoveries| && Ranged(Recoveries, Window.Base) && Matrix.Columns == |l|
      ensures Numbers(ColumnNumbers, l) && Matrix.Original == MatrixRows(Recoveries, Region.recoveryCount, Raw, Window.Base, l)
      ensures Missing(l)
    {
      hide *;
      MatrixUnderlies();
      LossesAre();
      RegionMatrix(Region, Recoveries, Raw, Window.Received, Window.Base, Matrix.Original, Matrix.LostCounts, Matrix.Columns, ColumnNumbers,
              Window.MatrixColumns, PreviousNextCheckStart);
      RegionEnds();
      ListsFacts(l, Window.Received, Window.Base + Region.nextCheckStart);
      MissingFold(l);
    }

    lemma LossesBelow(l: seq<nat>)
      requires l == Lost(Window.Received, Window.Base + Region.nextCheckStart) && Region.nextCheckStart <= Window.Count
      ensures forall a :: a in l ==> a < Window.Base + Window.Count
    {
      hide Lost;
      LostLists(Window.Received, Window.Base + Region.nextCheckStart);
    }

    lemma LossesAre()
      ensures RegionLosses() == Lost(Window.Received, Window.Base + Region.nextCheckStart)
    {}

    lemma MatrixUnderlies()
      requires RegionValid() && MatrixValid()
      ensures Checked(Region, Recoveries, Window.Received, Window.Base) && Matrix.Resumable() && |Matrix.Rows| == |Matrix.Original|
      ensures Underlies(Region, Recoveries, Raw, Window.Received, Window.Base, Matrix.Original, Matrix.LostCounts, Matrix.Columns,
              ColumnNumbers, Window.MatrixColumns, PreviousNextCheckStart)
    {
      hide Underlies;
    }

    lemma MissingFold(l: seq<nat>)
      requires l == RegionLosses() && Lists(l, Window.Received, Window.Base + Region.nextCheckStart) && 0 < |l| && Window.WindowValid()
      requires forall j :: 0 <= j < |l| ==> Window.Base <= l[j] < Window.Base + Region.nextCheckStart
      requires Window.NextExpectedElement < Region.nextCheckStart <= Window.Count
      ensures Missing(l)
    {
      hide Lists, Lost, Wrap;
    }

    lemma RegionEnds()
      requires RowsValid() && RegionValid() && Region.recoveryCount > 0
      ensures Region.recoveryCount <= |Recoveries| && Window.NextExpectedElement < Region.nextCheckStart <= Window.Count
    {
      hide Carries, Near, Wrap, Lost;
    }

    lemma MatrixFold()
      requires Matrix.Resumable() && |Matrix.Rows| == |Matrix.Original|
      requires Underlies(Region, Recoveries, Raw, Window.Received, Window.Base, Matrix.Original, Matrix.LostCounts, Matrix.Columns,
              ColumnNumbers, Window.MatrixColumns, PreviousNextCheckStart)
      ensures MatrixValid()
    {
      hide Underlies;
    }

    // Puts the matrix of the checked region in triangular form, if that is possible.
    method SolveMatrix(ghost l: seq<nat>) returns (ok: bool)
      requires Working() && l == RegionLosses() && 0 < Region.lostCount <= Region.recoveryCount
      modifies this`ColumnNumbers, this`PreviousNextCheckStart, Window`MatrixColumns, Matrix
      ensures Window.Valid() && Window.NextValid() && Window.SumsWhole() && RowsValid() && RegionValid() && Missing(l)
      ensures ok <==> Solvable()
      ensures if ok then SolvedFor(l) else MatrixValid()
    {
      hide *;
      WorkParts();
      NextParts();
      GenerateMatrix();
      MatrixParts(l);
      ghost var generated := MatrixRows(Recoveries, Region.recoveryCount, Raw, Window.Base, l);
      ok := Matrix.GaussianElimination();
      SolvableIs(l);
      DeterminedIs(l);
      if ok {
        SolvedFold(l);
      } else {
        ResumableRows();
        MatrixFold();
      }
    }

    lemma SolvedFold(l: seq<nat>)
      requires Matrix.Solved() && 0 < Region.recoveryCount == |Matrix.Rows| && Matrix.Columns == |l|
      requires Region.recoveryCount <= |Recoveries| && Ranged(Recoveries, Window.Base)
      requires Matrix.Original == MatrixRows(Recoveries, Region.recoveryCount, Raw, Window.Base, l) && Numbers(ColumnNumbers, l)
      ensures SolvedFor(l)
    {
      hide MatrixRows, Ranged;
    }

    lemma SolvedColumns(l: seq<nat>)
      requires SolvedFor(l)
      ensures Numbers(ColumnNumbers, l)
    {
      hide MatrixRows, Ranged;
    }

    lemma SolvableIs(l: seq<nat>)
      requires l == RegionLosses()
      ensures Solvable() <==> Determined(Recoveries, Region.recoveryCount, Raw, Window.Base, l)
    {
      hide Determined, Lost;
    }

    lemma DeterminedIs(l: seq<nat>)
      requires Region.recoveryCount <= |Recoveries| && Ranged(Recoveries, Window.Base)
      ensures Determined(Recoveries, Region.recoveryCount, Raw, Window.Base, l)
              <==> FullColumnRank(MatrixRows(Recoveries, Region.recoveryCount, Raw, Window.Base, l), |l|)
    {
      hide FullColumnRank, MatrixRows;
    }

    // Tries to solve for all losses of the checked region.
    method DecodeCheckedRegion() returns (result: SiameseResult, packets: seq<Original>)
      requires !EmergencyDisabled && Working() && LastValid() && 0 < Region.lostCount <= Region.recoveryCount
      modifies this`Recoveries, this`EmergencyDisabled, this`Region, this`SolveFailed, this`ColumnNumbers, this`PreviousNextCheckStart, Window, Matrix
      ensures Window.History == old(Window.History)
      ensures !EmergencyDisabled ==> Working() && LastValid() && Window.Base + Window.Count == old(Window.Base + Window.Count)
      ensures result == NeedMoreData <==> !old(Solvable())
      ensures result == NeedMoreData ==>
                && !EmergencyDisabled && SolveFailed && Region == old(Region) && Recoveries == old(Recoveries)
                && Window.Base == old(Window.Base)
      ensures result == Success ==>
                && packets == Reported(old(RegionLosses()), Window.History)
                && Window.Received == old(Window.Received) + Elements(old(RegionLosses()))
                && (!EmergencyDisabled ==> Region == NO_REGION && ListKept(old(Recoveries), old(Window.Base)) && (old(Region.nextCheckStart) >= DECODER_REMOVE_THRESHOLD ==> Trimmed()))
      ensures result != Success ==> packets == [] && Window.Received == old(Window.Received)
      ensures result == Success || result == NeedMoreData || (result == Disabled && EmergencyDisabled && !old(RowsServed()))
      ensures old(RowsInOrder()) ==> if EmergencyDisabled then Recoveries == [] else RowsInOrder()
    {
      hide *;
      packets := [];
      OrderServed();
      ghost var l := RegionLosses();
      var ok := SolveMatrix(l);
      if !ok {
        SolveFailed := true;
        Works();
        return NeedMoreData, [];
      }
      WholeNow();
      SolvedColumns(l);
      if RowsServed() {
        ServedSumsForm(l);
      }
      var recovered;
      ok, recovered := SolvePayloads(l);
      if !ok {
        EmergencyDisabled := true;
        return Disabled, [];
      }
      packets := FinishSolve(recovered, l);
      result := Success;
    }

    lemma OrderServed()
      ensures RowsInOrder() ==> RowsServed()
    {
      hide Served, Grouped;
    }

    lemma ServedSumsForm(l: seq<nat>)
      requires RowsServed() && RowsValid() && SolvedFor(l)
      ensures SumsForm()
    {
      hide Served, AllForm, MatrixRows, Ranged, Sound;
      ServedFormsAll(Recoveries, Used(), Region.recoveryCount, Window.Base, Window.RunningSums());
    }

    lemma WholeNow()
      requires Window.SumsWhole()
      ensures WholeBefore(Region.nextCheckStart)
    {
      hide AllWhole;
    }

    lemma ResumableRows()
      requires Matrix.Resumable()
      ensures |Matrix.Rows| == |Matrix.Original|
    {
      hide Eliminated, ZeroTails, UsedUpTo;
    }

    // A region at least as big as the one recorded.
    ghost predicate Candidate(region: CheckedRegion)
      reads this`Recoveries, this`Region, Window`Received, Window`Base
    {
      && Checked(region, Recoveries, Window.Received, Window.Base)
      && Region.recoveryCount <= region.recoveryCount && Region.nextCheckStart <= region.nextCheckStart
    }

    // Takes the next recovery packet into the region.
    method ExtendRegion(region: CheckedRegion) returns (next: CheckedRegion)
      requires Working() && Candidate(region) && region.recoveryCount < |Recoveries|
      modifies this`Recoveries
      ensures Working() && Candidate(next) && next.recoveryCount == region.recoveryCount + 1 && 0 < next.lostCount
      ensures SameRows(old(Recoveries), Recoveries)
      ensures old(LastValid()) ==> LastValid()
      ensures old(RowsInOrder()) ==> RowsInOrder()
      ensures Solvable() <==> old(Solvable())
    {
      hide *;
      WorkParts();
      NextRowFacts(region);
      var i := region.recoveryCount;
      var r := Recoveries[i];
      var elementStart, elementEnd := r.elementStart, r.elementEnd;
      if region.recoveryCount > 0 {
        elementStart := region.nextCheckStart;
        if elementEnd < region.nextCheckStart {
          elementEnd := region.nextCheckStart;
        }
      }
      var lost := Window.RangeLostPackets(elementStart, elementEnd);
      lost := region.lostCount + lost;
      next := CheckedRegion(if region.recoveryCount == 0 then r.elementStart else region.elementStart, elementEnd, region.recoveryCount + 1, lost);
      Recount(region, next);
    }

    // Records the number of losses a recovery packet faces.
    method Recount(region: CheckedRegion, next: CheckedRegion)
      requires Working() && Candidate(region) && region.recoveryCount < |Recoveries|
      requires var r := Recoveries[region.recoveryCount];
               && next.elementStart == (if region.recoveryCount == 0 then r.elementStart else region.elementStart)
               && next.nextCheckStart == r.elementEnd && next.recoveryCount == region.recoveryCount + 1
               && next.lostCount == |Lost(Window.Received, Window.Base + r.elementEnd)|
               && region.nextCheckStart <= r.elementEnd
      modifies this`Recoveries
      ensures Working() && Candidate(next)
      ensures SameRows(old(Recoveries), Recoveries)
      ensures old(LastValid()) ==> LastValid()
      ensures old(RowsInOrder()) ==> RowsInOrder()
      ensures Solvable() <==> old(Solvable())
    {
      hide *;
      var i, lost := region.recoveryCount, next.lostCount;
      ghost var recs := Recoveries;
      WorkParts();
      RowsListed();
      CandidateChecked(region);
      MatrixUnderlies();
      ListedRecounted(recs, Raw, Window.History, Window.Base, Window.Count, Window.NextExpectedElement, Window.SumBase, Window.Live, i, lost);
      CheckedKept(Region, recs, Window.Received, Window.Base, i, lost);
      RegionExtended(region, next, recs);
      ghost var kept := LastValid();
      if kept {
        LastParts();
        LastRecounted(LastRecoveryMetadata, LastStart, recs, Window.Base, Window.NextExpectedElement, Window.SumBase, Window.Live, i, lost);
      }
      DeterminedKept(recs, Region.recoveryCount, Raw, Window.Base, RegionLosses(), i, lost);
      SolvableIs(RegionLosses());
      OrderIs();
      RecountedInOrder(recs, Window.Base, Window.RunningSums(), i, lost);
      SameRowsSelf(recs);
      SameRowsRecounted(recs, recs, i, lost);
      Recoveries := Recoveries[i := Recoveries[i].(lostCount := lost)];
      OrderIs();
      if kept {
        LastFold();
      }
      RowsFold();
      RowsRanged();
      UnderliesExtended(Region, Region, recs, Recoveries, Raw, Window.Received, Window.Base, Matrix.Original, Matrix.LostCounts, Matrix.Columns,
              ColumnNumbers, Window.MatrixColumns, PreviousNextCheckStart);
      RegionFold();
      MatrixFold();
      Works();
      CandidateFold(next);
      SolvableIs(RegionLosses());
    }

    lemma RegionExtended(region: CheckedRegion, next: CheckedRegion, recs: seq<Recovery>)
      requires Checked(region, recs, Window.Received, Window.Base) && region.recoveryCount < |recs|
      requires var r := recs[region.recoveryCount];
               && next.elementStart == (if region.recoveryCount == 0 then r.elementStart else region.elementStart)
               && next.nextCheckStart == r.elementEnd && next.recoveryCount == region.recoveryCount + 1
               && next.lostCount == |Lost(Window.Received, Window.Base + r.elementEnd)|
      ensures Checked(next, recs[region.recoveryCount := recs[region.recoveryCount].(lostCount := next.lostCount)], Window.Received, Window.Base)
    {
      hide Checked, Lost;
      CheckedExtended(region, recs, Window.Received, Window.Base, next.lostCount);
    }

    lemma RowsListed()
      requires RowsValid()
      ensures Listed(Recoveries, Raw, Window.History, Window.Base, Window.Count, Window.NextExpectedElement, Window.SumBase, Window.Live)
    {
      hide Listed;
    }

    lemma RowsFold()
      requires Listed(Recoveries, Raw, Window.History, Window.Base, Window.Count, Window.NextExpectedElement, Window.SumBase, Window.Live)
      ensures RowsValid()
    {
      hide Listed;
    }

    lemma RegionFold()
      requires Checked(Region, Recoveries, Window.Received, Window.Base)
      ensures RegionValid()
    {
      hide Checked;
    }

    lemma CandidateChecked(region: CheckedRegion)
      requires Candidate(region)
      ensures Checked(region, Recoveries, Window.Received, Window.Base)
      ensures Region.recoveryCount <= region.recoveryCount && Region.nextCheckStart <= region.nextCheckStart
    {
      hide Checked;
    }

    lemma CandidateFold(region: CheckedRegion)
      requires Checked(region, Recoveries, Window.Received, Window.Base)
      requires Region.recoveryCount <= region.recoveryCount && Region.nextCheckStart <= region.nextCheckStart
      ensures Candidate(region)
    {
      hide Checked;
    }

    lemma NextFacts()
      requires Window.NextValid()
      ensures forall a: nat :: a < Window.Base + Window.NextExpectedElement ==> a in Window.Received
      ensures Window.NextExpectedElement < Window.Count ==> Window.Base + Window.NextExpectedElement !in Window.Received
    {}

    lemma NextRowFacts(region: CheckedRegion)
      requires Working() && Candidate(region) && region.recoveryCount < |Recoveries|
      ensures var r := Recoveries[region.recoveryCount];
              && r.elementStart <= Window.NextExpectedElement < r.elementEnd <= Window.Count
              && 0 < |Lost(Window.Received, Window.Base + r.elementEnd)|
              && (region.recoveryCount == 0 ==>
                    region.lostCount == 0 && region.nextCheckStart == 0 && |Lost(Window.Received, Window.Base + r.elementStart)| == 0)
              && (region.recoveryCount > 0 ==>
                    region.nextCheckStart <= r.elementEnd && region.lostCount == |Lost(Window.Received, Window.Base + region.nextCheckStart)|)
    {
      hide *;
      WorkParts();
      RowsListed();
      NextFacts();
      CandidateChecked(region);
      NextRow(region, Recoveries, Raw, Window.History, Window.Received, Window.Base, Window.Count, Window.NextExpectedElement, Window.SumBase, Window.Live);
    }

    // Records how far the checks have got.
    method SaveRegion(region: CheckedRegion)
      requires Working() && Candidate(region)
      modifies this`Region
      ensures Working() && Region == region
    {
      hide *;
      WorkParts();
      RowsRanged();
      MatrixUnderlies();
      CandidateChecked(region);
      UnderliesExtended(Region, region, Recoveries, Recoveries, Raw, Window.Received, Window.Base, Matrix.Original, Matrix.LostCounts,
              Matrix.Columns, ColumnNumbers, Window.MatrixColumns, PreviousNextCheckStart);
      Region := region;
      RegionFold();
      MatrixFold();
      Works();
    }

    lemma RegionIsCandidate()
      requires Working()
      ensures Candidate(Region)
    {
      hide Checked, Underlies, Listed, AllHold, AllStale, EndsBefore;
    }

    // There is always something to recover in a region.
    lemma RegionLost()
      requires Working() && Region.recoveryCount > 0
      ensures 0 < Region.lostCount
    {
      hide *;
      WorkParts();
      RegionEnds();
      RegionCount();
      NextFacts();
      LostSomething(Window.Received, Window.Base + Window.NextExpectedElement, Window.Base + Region.nextCheckStart);
    }

    lemma RegionCount()
      requires RegionValid() && Region.recoveryCount > 0
      ensures Region.lostCount == |Lost(Window.Received, Window.Base + Region.nextCheckStart)|
    {
      hide Lost;
    }

    // The region the next check gets to: it takes in recovery packets, one more at
    // least if the last region could not be solved, until there are as many as losses.
    ghost function Reached(): (k: nat)
      reads this`Recoveries, this`Region, this`SolveFailed, Window`Received, Window`Base
    {
      if Recoveries == [] then 0
      else if Region.recoveryCount == 0 || (SolveFailed && Region.recoveryCount < |Recoveries|)
        then Enough(Recoveries, Window.Received, Window.Base, Region.recoveryCount + 1)
      else Enough(Recoveries, Window.Received, Window.Base, Region.recoveryCount)
    }

    // A region could not be solved, and no recovery packet is listed behind those
    // looked at since.
    ghost predicate Stalled()
      reads this`Recoveries, this`Region, this`SolveFailed
    {
      SolveFailed && 0 < Region.recoveryCount == |Recoveries|
    }

    // It has packets enough for its losses, and no more losses than can be solved for.
    ghost predicate Promising()
      reads this`Recoveries, this`Region, this`SolveFailed, Window`Received, Window`Base
    {
      var losses := |LossesOf(Recoveries, Reached(), Window.Received, Window.Base)|;
      Recoveries != [] && !Stalled() && losses <= Reached() && losses <= MAXIMUM_LOSS_RECOVERY_COUNT
    }

    // ... and these determine them.
    ghost predicate Recoverable()
      reads this`Recoveries, this`Region, this`SolveFailed, Window`Received, Window`Base
    {
      Promising() && Determined(Recoveries, Reached(), Raw, Window.Base, LossesOf(Recoveries, Reached(), Window.Received, Window.Base))
    }

    // Takes in recovery packets until there are as many as losses.
    method CheckRecoveryPossible() returns (possible: bool)
      requires !EmergencyDisabled && Working()
      modifies this`Recoveries, this`Region, this`SolveFailed
      ensures Working() && SameRows(old(Recoveries), Recoveries) && (old(LastValid()) ==> LastValid()) && (old(RowsInOrder()) ==> RowsInOrder())
      ensures Region.recoveryCount == old(Reached()) && (Recoveries != [] ==> SolveFailed == old(Stalled()))
      ensures RegionLosses() == old(LossesOf(Recoveries, Reached(), Window.Received, Window.Base)) || Recoveries == []
      ensures possible <==> old(Promising())
      ensures possible ==> 0 < Region.lostCount <= Region.recoveryCount
    {
      hide *;
      WorkParts();
      RegionIsCandidate();
      ghost var recs, reached, stalled := Recoveries, Reached(), Stalled();
      ghost var received, base := Window.Received, Window.Base;
      SameRowsSelf(recs);
      StallIs();
      ReachedFirst();
      PromisingIs();
      var region := Region;
      CandidateChecked(region);
      if region.recoveryCount == 0 {
        if Recoveries == [] {
          return false;
        }
        region := ExtendRegion(region);
        CandidateChecked(region);
        ReachingFirst(region, recs, Recoveries, received, base);
        SolveFailed := false;
      } else {
        RegionLost();
        if SolveFailed {
          ReachingAgain(region, recs, received, base);
        } else {
          ReachingFirst(region, recs, recs, received, base);
        }
        if region.recoveryCount >= region.lostCount && !SolveFailed {
          ReachingDone(region, recs, recs, received, base, reached, stalled, false);
          LossesReached(recs, reached);
          return region.lostCount <= MAXIMUM_LOSS_RECOVERY_COUNT;
        }
      }
      while (region.recoveryCount < region.lostCount || SolveFailed) && region.recoveryCount < |Recoveries|
        invariant Working() && Candidate(region) && 0 < region.lostCount && Window.Received == received && Window.Base == base
        invariant Reaching(region, recs, Recoveries, received, base, reached, stalled, SolveFailed) && region.recoveryCount <= |Recoveries|
        invariant (old(LastValid()) ==> LastValid()) && (old(RowsInOrder()) ==> RowsInOrder())
        decreases |Recoveries| - region.recoveryCount
      {
        ghost var before, last := Recoveries, region;
        region := ExtendRegion(region);
        CandidateChecked(region);
        SameRowsLength(before, Recoveries);
        ReachingNext(last, region, recs, before, Recoveries, received, base, reached, stalled, SolveFailed);
        SolveFailed := false;
      }
      SaveRegion(region);
      ReachingDone(region, recs, Recoveries, received, base, reached, stalled, SolveFailed);
      WorkParts();
      LossesReached(recs, reached);
      possible := region.lostCount <= MAXIMUM_LOSS_RECOVERY_COUNT && region.recoveryCount >= region.lostCount && !SolveFailed;
    }

    lemma StallIs()
      ensures Stalled() <==> SolveFailed && 0 < Region.recoveryCount == |Recoveries|
    {}

    lemma ReachedFirst()
      ensures Recoveries == [] ==> Reached() == 0
      ensures Recoveries != [] ==>
                Reached() == Enough(Recoveries, Window.Received, Window.Base,
                                if Region.recoveryCount == 0 || (SolveFailed && Region.recoveryCount < |Recoveries|) then Region.recoveryCount + 1
                                else Region.recoveryCount)
    {
      hide Enough;
    }

    lemma PromisingIs()
      ensures var losses := |LossesOf(Recoveries, Reached(), Window.Received, Window.Base)|;
              Promising() <==> Recoveries != [] && !Stalled() && losses <= Reached() && losses <= MAXIMUM_LOSS_RECOVERY_COUNT
    {
      hide Reached, LossesOf;
    }

    lemma SameRowsLength(recs: seq<Recovery>, more: seq<Recovery>)
      requires SameRows(recs, more)
      ensures |recs| == |more|
    {}

    lemma LossesReached(recs: seq<Recovery>, k: nat)
      requires SameRows(recs, Recoveries) && RegionValid() && Region.recoveryCount == k > 0
      ensures RegionLosses() == LossesOf(recs, k, Window.Received, Window.Base)
    {
      hide Lost;
    }

    // Packets recovered already and not yet reported.
    ghost predicate OutputValid()
      reads this`HasRecoveredPackets, this`RecoveredPackets, this`RecoveredFrom, Window`History, Window`Received
    {
      HasRecoveredPackets ==>
        && RecoveredPackets == Reported(RecoveredFrom, Window.History) && RecoveredFrom != []
        && forall a :: a in RecoveredFrom ==> a in Window.Received
    }

    // The packets recovered and not yet handed out.
    ghost function Waiting(): seq<nat>
      reads this`HasRecoveredPackets, this`RecoveredFrom
    {
      if HasRecoveredPackets then RecoveredFrom else []
    }

    ghost predicate Ledger()
      reads this`Arrivals, this`Given, this`HasRecoveredPackets, this`RecoveredFrom, Window`Received
    {
      Accounted(Arrivals, Given, Waiting(), Window.Received)
    }

    ghost predicate Usable()
      reads this, Window, Matrix
    {
      EmergencyDisabled || (Working() && OutputValid() && LastValid())
    }

    ghost predicate Valid()
      reads this, Window, Matrix
    {
      Ledger() && Usable()
    }

    // Hands out recovered packets: those waiting for it or, if none are, the losses of
    // the region it gets to. These are what the encoder was given, and none was handed
    // out before. It wants more data exactly if that region does not give its losses.
    method Decode() returns (result: SiameseResult, packets: seq<Original>, ghost l: seq<nat>)
      requires Valid()
      modifies this, Window, Matrix
      ensures Valid() && Window.History == old(Window.History)
      ensures result == Success ==>
                && packets == Reported(l, Window.History) && l != [] && Given == old(Given) + l && !HasRecoveredPackets
                && if old(HasRecoveredPackets) then l == old(RecoveredFrom) && Window.Received == old(Window.Received) && Recoveries == old(Recoveries)
                   else
                     && l == old(LossesOf(Recoveries, Reached(), Window.Received, Window.Base))
                     && Window.Received == old(Window.Received) + Elements(l)
                     && (!EmergencyDisabled ==> ListKept(old(Recoveries), old(Window.Base)))
      ensures forall a :: a in l ==> a in Window.Received
      ensures result != Success ==>
                packets == [] && l == [] && Window.Received == old(Window.Received) && Given == old(Given) && Waiting() == old(Waiting())
      ensures Arrivals == old(Arrivals)
      ensures forall a :: a in Window.Received ==> a in old(Window.Received) || a < old(Window.Base + Window.Count)
      ensures !EmergencyDisabled ==> Window.Base + Window.Count == old(Window.Base + Window.Count)
      ensures result == Success || result == NeedMoreData || result == Disabled
      ensures result == Disabled ==> EmergencyDisabled && (old(EmergencyDisabled) || !old(RowsServed()))
      ensures old(EmergencyDisabled) ==> result == Disabled
      ensures !old(EmergencyDisabled) && (old(HasRecoveredPackets) || old(Recoverable() && RowsInOrder())) ==> result == Success
      ensures result == NeedMoreData <==> !old(EmergencyDisabled) && !old(HasRecoveredPackets) && !old(Recoverable())
      ensures result == NeedMoreData ==> SameRows(old(Recoveries), Recoveries) && Window.Base == old(Window.Base)
      ensures result == NeedMoreData ==> !EmergencyDisabled && !HasRecoveredPackets && (old(Promising()) || old(Stalled()) ==> Stalled())
      ensures !old(EmergencyDisabled) && old(RowsInOrder()) ==> if EmergencyDisabled then Recoveries == [] else RowsInOrder()
    {
      hide *;
      packets, l := [], [];
      LedgerIs();
      if EmergencyDisabled {
        return Disabled, [], [];
      }
      ValidParts();
      WaitingIs();
      OrderServed();
      StillServed(Recoveries);
      if HasRecoveredPackets {
        OutputParts();
        AccountedHanded(Arrivals, Given, RecoveredFrom, Window.Received);
        HasRecoveredPackets, Given := false, Given + RecoveredFrom;
        NoOutput();
        UsableFold();
        WaitingIs();
        ValidFold();
        return Success, RecoveredPackets, RecoveredFrom;
      }
      NoOutput();
      ghost var recs, k := Recoveries, Reached();
      RecoverableIs();
      StallIs();
      ReachedFirst();
      var possible := CheckRecoveryPossible();
      StallIs();
      SameRowsLength(recs, Recoveries);
      WaitingIs();
      if !possible {
        UsableFold();
        ValidFold();
        return NeedMoreData, [], [];
      }
      SameDetermined(recs, Recoveries, k, Raw, Window.Base, RegionLosses());
      SolvableIs(RegionLosses());
      StillServed(recs);
      RegionFresh();
      AccountedIf(RegionLosses());
      ghost var more, base := Recoveries, Window.Base;
      result, packets, l := DecodeRegions();
      ListKeptIf(recs, more, base);
      if result == NeedMoreData {
        SameRowsThen(recs, more, Recoveries);
      }
      UsableIs();
      if result == Success {
        Given := Given + l;
      }
      UsableIs();
      WaitingIs();
      ValidFold();
    }

    lemma UsableIs()
      ensures Usable() <==> EmergencyDisabled || (Working() && OutputValid() && LastValid())
    {
      hide Working, OutputValid, LastValid;
    }

    lemma LedgerIs()
      requires Valid()
      ensures Ledger() && Usable()
    {
      hide Decoder.Usable, Decoder.Ledger;
    }

    lemma WaitingIs()
      ensures Waiting() == if HasRecoveredPackets then RecoveredFrom else []
      ensures Ledger() <==> Accounted(Arrivals, Given, Waiting(), Window.Received)
    {
      hide Accounted;
    }

    lemma AccountedIf(l: seq<nat>)
      requires Accounted(Arrivals, Given, [], Window.Received) && Distinct(l) && forall a :: a in l ==> a !in Window.Received
      ensures Accounted(Arrivals, Given + l, [], Window.Received + Elements(l))
    {
      AccountedSolved(Arrivals, Given, Window.Received, l);
    }

    lemma StillServed(recs: seq<Recovery>)
      requires SameRows(recs, Recoveries) || recs == Recoveries
      ensures RowsServed() <==> Served(Recoveries, Window.Base, Window.RunningSums())
      ensures Served(recs, Window.Base, Window.RunningSums()) ==> RowsServed()
    {
      hide Served, SameRows;
      if recs != Recoveries {
        SameServed(recs, Recoveries, Window.Base, Window.RunningSums());
      }
    }

    // The region has losses, none received.
    lemma RegionFresh()
      requires Working() && 0 < Region.lostCount <= Region.recoveryCount
      ensures RegionLosses() != [] && Distinct(RegionLosses()) && forall a :: a in RegionLosses() ==> a !in Window.Received
    {
      hide *;
      WorkParts();
      LossesAre();
      RegionCount();
      LostFresh(Window.Received, Window.Base + Region.nextCheckStart);
    }

    lemma ListKeptIf(recs: seq<Recovery>, more: seq<Recovery>, base: nat)
      requires SameRows(recs, more)
      ensures ListKept(more, base) ==> ListKept(recs, base)
    {
      if ListKept(more, base) {
        ListKeptSame(recs, more, base);
      }
    }

    lemma RecoverableIs()
      ensures Recoverable() <==> Promising() && Determined(Recoveries, Reached(), Raw, Window.Base,
                                                    LossesOf(Recoveries, Reached(), Window.Received, Window.Base))
      ensures Promising() ==> Recoveries != []
    {
      hide Determined, LossesOf, Reached;
    }

    lemma EmergencyUsable()
      requires EmergencyDisabled
      ensures Usable()
    {}

    lemma ValidParts()
      requires Valid() && !EmergencyDisabled
      ensures Working() && OutputValid() && LastValid() && Ledger()
    {
      hide Working, OutputValid, LastValid, Decoder.Ledger;
    }

    lemma UsableFold()
      requires Working() && OutputValid() && LastValid()
      ensures Usable()
    {
      hide Working, OutputValid, LastValid;
    }

    lemma ValidFold()
      requires Usable() && Ledger()
      ensures Valid()
    {
      hide Decoder.Usable, Decoder.Ledger;
    }

    // In every state a packet received arrived as it was sent, waits to be handed out
    // or has been handed out: just one of these, and once.
    lemma EachOnce(a: nat)
      requires Valid()
      ensures a in Window.Received <==> a in Arrivals || a in Given || a in Waiting()
      ensures a in Arrivals ==> a !in Given && a !in Waiting()
      ensures a in Given ==> a !in Waiting()
      ensures Distinct(Given) && Distinct(Waiting())
    {
      hide Decoder.Usable;
      OnceEach(Given, Waiting(), a);
      assert a in Elements(Given + Waiting()) <==> a in Given || a in Waiting();
    }

    lemma OutputParts()
      requires OutputValid() && HasRecoveredPackets
      ensures RecoveredPackets == Reported(RecoveredFrom, Window.History) && RecoveredFrom != []
      ensures forall a :: a in RecoveredFrom ==> a in Window.Received
    {
      hide Reported;
    }

    lemma NoOutput()
      requires !HasRecoveredPackets
      ensures OutputValid()
    {}

    // Decodes the checked region. On failure the source goes on to take in more
    // packets, but what it then decodes is the recorded region again.
    method DecodeRegions() returns (result: SiameseResult, packets: seq<Original>, ghost l: seq<nat>)
      requires !EmergencyDisabled && Working() && LastValid() && !HasRecoveredPackets && 0 < Region.lostCount <= Region.recoveryCount
      modifies this`Recoveries, this`EmergencyDisabled, this`Region, this`SolveFailed, this`ColumnNumbers, this`PreviousNextCheckStart, Window, Matrix
      ensures Usable() && Window.History == old(Window.History)
      ensures !EmergencyDisabled ==> Window.Base + Window.Count == old(Window.Base + Window.Count)
      ensures forall a :: a in l ==> a < old(Window.Base + Window.Count)
      ensures result == NeedMoreData <==> !old(Solvable())
      ensures result == Success ==>
                && packets == Reported(l, Window.History) && l == old(RegionLosses()) && Window.Received == old(Window.Received) + Elements(l)
                && (!EmergencyDisabled ==> ListKept(old(Recoveries), old(Window.Base)))
      ensures result == NeedMoreData ==> SameRows(old(Recoveries), Recoveries) && Window.Base == old(Window.Base)
      ensures result != Success ==> packets == [] && l == [] && Window.Received == old(Window.Received)
      ensures result == Disabled ==> EmergencyDisabled && !old(RowsServed())
      ensures result == NeedMoreData ==> !EmergencyDisabled && Stalled()
      ensures result == Success || result == NeedMoreData || result == Disabled
      ensures old(RowsInOrder()) ==> if EmergencyDisabled then Recoveries == [] else RowsInOrder()
    {
      hide *;
      l := RegionLosses();
      WorkParts();
      RegionEnds();
      LossesAre();
      LossesBelow(l);
      RegionIsCandidate();
      SameRowsSelf(Recoveries);
      var region := Region;
      while true
        invariant !EmergencyDisabled && Working() && LastValid() && !HasRecoveredPackets && Candidate(region) && Region == old(Region)
        invariant old(RowsInOrder()) ==> RowsInOrder()
        invariant Window.History == old(Window.History) && Window.Received == old(Window.Received) && Window.Base == old(Window.Base)
        invariant Window.Base + Window.Count == old(Window.Base + Window.Count)
        invariant 0 < region.recoveryCount <= |Recoveries|
        invariant Solvable() == old(Solvable()) && (Solvable() ==> RowsServed() == old(RowsServed()))
        invariant SameRows(old(Recoveries), Recoveries)
        invariant region == Region || (SolveFailed && !Solvable())
        decreases |Recoveries| - region.recoveryCount
      {
        if region.recoveryCount >= region.lostCount {
          ghost var recs := Recoveries;
          result, packets := DecodeCheckedRegion();
          if result != NeedMoreData {
            if EmergencyDisabled {
              EmergencyUsable();
            } else {
              ListKeptIf(old(Recoveries), recs, old(Window.Base));
              NoOutput();
              UsableFold();
            }
            if result != Success {
              l := [];
            }
            return;
          }
        }
        if region.recoveryCount == |Recoveries| {
          break;
        }
        ghost var before := Recoveries;
        region := ExtendRegion(region);
        SameRowsLength(before, Recoveries);
        SameRowsThen(old(Recoveries), before, Recoveries);
      }
      SaveRegion(region);
      StallIs();
      NoOutput();
      UsableFold();
      result, packets, l := NeedMoreData, [], [];
    }

    // Takes in an original packet, unless it is half a period or more past the front
    // of the window.
    method AddOriginal(packetNum: nat, value: Gf, ghost a: nat) returns (result: SiameseResult)
      requires Valid()
      requires packetNum == Wrap(a) && a < |Window.History| && value == Window.History[a]
      requires EmergencyDisabled || (a < Window.Base + COLUMN_PERIOD && Window.Base <= a + COLUMN_PERIOD / 2)
      modifies this`Recoveries, this`Region, this`SolveFailed, this`ColumnNumbers, this`PreviousNextCheckStart, this`Arrivals, Window, Matrix
      ensures Valid() && Window.History == old(Window.History)
      ensures EmergencyDisabled ==> result == Disabled && Window.Received == old(Window.Received)
      ensures Arrivals == if result == Success then old(Arrivals) + {a} else old(Arrivals)
      ensures Region == if result == Success && old(Window.Base + Region.elementStart) <= a < old(Window.Base + Region.nextCheckStart) then NO_REGION
                        else old(Region)
      ensures Recoveries == if result == Success && a == old(Window.Base + Window.NextExpectedElement) then DeletedBefore(old(Recoveries), Window.NextExpectedElement)
                            else old(Recoveries)
      ensures !EmergencyDisabled ==>
                && result == (if a in old(Window.Received) || a >= Window.Base + COLUMN_PERIOD / 2 then DuplicateData else Success)
                && Window.Received == (if a < Window.Base + COLUMN_PERIOD / 2 then old(Window.Received) + {a} else old(Window.Received))
                && Window.Base == old(Window.Base) && (HasRecoveredPackets <==> old(HasRecoveredPackets))
                && (Window.Base + Window.Count == old(Window.Base + Window.Count) || Window.Base + Window.Count == a + 1)
      ensures !EmergencyDisabled && old(RowsInOrder()) ==> RowsInOrder()
      ensures Window.SumColumnStart == old(Window.SumColumnStart) && Window.SumColumnCount == old(Window.SumColumnCount)
      ensures |Recoveries| <= |old(Recoveries)|
    {
      hide *;
      if EmergencyDisabled {
        return Disabled;
      }
      ValidParts();
      WaitingIs();
      AccountedArrival(Arrivals, Given, Waiting(), Window.Received, a);
      OutputKept(if a < Window.Base + COLUMN_PERIOD / 2 then Window.Received + {a} else Window.Received);
      result := TakeOriginal(packetNum, value, a);
      if result == Success {
        Arrivals := Arrivals + {a};
      }
      OutputFold();
      UsableFold();
      WaitingIs();
      ValidFold();
    }

    method TakeOriginal(packetNum: nat, value: Gf, ghost a: nat) returns (result: SiameseResult)
      requires Working() && LastValid()
      requires packetNum == Wrap(a) && a < |Window.History| && value == Window.History[a]
      requires a < Window.Base + COLUMN_PERIOD && Window.Base <= a + COLUMN_PERIOD / 2
      modifies this`Recoveries, this`Region, this`SolveFailed, this`ColumnNumbers, this`PreviousNextCheckStart, Matrix
      modifies Window`Count, Window`Originals, Window`MatrixColumns, Window`NextExpectedElement, Window`Received
      ensures Working() && LastValid()
      ensures result == (if a in old(Window.Received) || a >= Window.Base + COLUMN_PERIOD / 2 then DuplicateData else Success)
      ensures Window.Received == if a < Window.Base + COLUMN_PERIOD / 2 then old(Window.Received) + {a} else old(Window.Received)
      ensures Window.Base + Window.Count == old(Window.Base + Window.Count) || Window.Base + Window.Count == a + 1
      ensures Region == if result == Success && old(Window.Base + Region.elementStart) <= a < old(Window.Base + Region.nextCheckStart) then NO_REGION
                        else old(Region)
      ensures Recoveries == if result == Success && a == old(Window.Base + Window.NextExpectedElement) then DeletedBefore(old(Recoveries), Window.NextExpectedElement)
                            else old(Recoveries)
      ensures Window.Count >= old(Window.Count) && (old(RowsInOrder()) ==> RowsInOrder()) && |Recoveries| <= |old(Recoveries)|
    {
      hide *;
      WorkParts();
      NextParts();
      RowsListed();
      MatrixUnderlies();
      LastParts();
      ghost var next, received, count, matrixColumns := Window.NextExpectedElement, Window.Received, Window.Count, Window.MatrixColumns;
      var nextExpected := Window.NextExpectedElement;
      var added, element := Window.AddOriginal(packetNum, value, a);
      NextParts();
      ListedGrown(Recoveries, Raw, Window.History, Window.Base, count, next, Window.SumBase, Window.Live, Window.Count);
      if added {
        Arrived(element, nextExpected, received, count, matrixColumns, a);
      } else {
        LastFold();
        RowsFold();
        RegionFold();
        MatrixFold();
      }
      Works();
      result := if added then Success else DuplicateData;
    }

    // An original packet has arrived at `element`: recovery packets may no longer
    // be needed, and a region that counts it as lost has to be checked again.
    method Arrived(element: nat, nextExpected: nat, ghost received: set<nat>, ghost count: nat, ghost matrixColumns: seq<nat>, ghost a: nat)
      requires Window.NextValid() && Window.NextBound() && Listed(Recoveries, Raw, Window.History, Window.Base, Window.Count, nextExpected,
              Window.SumBase, Window.Live)
      requires Checked(Region, Recoveries, received, Window.Base) && Matrix.Resumable() && |Matrix.Rows| == |Matrix.Original|
      requires Underlies(Region, Recoveries, Raw, received, Window.Base, Matrix.Original, Matrix.LostCounts, Matrix.Columns, ColumnNumbers,
              matrixColumns, PreviousNextCheckStart)
      requires Window.Received == received + {a} && a == Window.Base + element && nextExpected <= element
      requires if element == nextExpected then nextExpected < Window.NextExpectedElement else nextExpected == Window.NextExpectedElement
      requires |matrixColumns| <= |Window.MatrixColumns| && Window.MatrixColumns[..|matrixColumns|] == matrixColumns
      requires LastKept(LastRecoveryMetadata, LastStart, Recoveries, Window.Base, nextExpected, Window.SumBase, Window.Live)
      modifies this`Recoveries, this`Region, this`SolveFailed, this`ColumnNumbers, this`PreviousNextCheckStart, Matrix
      ensures RowsValid() && RegionValid() && MatrixValid() && LastValid()
      ensures Region == if old(Region).elementStart <= element < old(Region).nextCheckStart then NO_REGION else old(Region)
      ensures element == nextExpected ==> Recoveries == DeletedBefore(old(Recoveries), Window.NextExpectedElement)
      ensures element != nextExpected ==> Recoveries == old(Recoveries)
      ensures (old(RowsInOrder()) ==> RowsInOrder()) && |Recoveries| <= |old(Recoveries)|
    {
      hide *;
      ghost var recs := Recoveries;
      ListedSorted(recs, Raw, Window.History, Window.Base, Window.Count, nextExpected, Window.SumBase, Window.Live);
      if element == nextExpected {
        DeletePacketsBefore(nextExpected);
      } else {
        LastFold();
        RowsFold();
      }
      RowsRanged();
      if Region.elementStart <= element < Region.nextCheckStart {
        ResetRegion();
      } else {
        if Region.recoveryCount > 0 {
          RegionSpans(Region, recs, Raw, Window.History, received, Window.Base, Window.Count, nextExpected, Window.SumBase, Window.Live);
        } else {
          NothingChecked(Region, recs, received, Window.Base);
        }
        RegionKept(Region, recs, Recoveries, Raw, received, Window.Base, a, Matrix.Original, Matrix.LostCounts, Matrix.Columns, ColumnNumbers,
                matrixColumns, Window.MatrixColumns, PreviousNextCheckStart);
        RegionFold();
        MatrixFold();
      }
    }

    lemma OutputKept(more: set<nat>)
      requires OutputValid() && Window.Received <= more
      ensures HasRecoveredPackets ==>
                RecoveredPackets == Reported(RecoveredFrom, Window.History) && RecoveredFrom != [] && forall a :: a in RecoveredFrom ==> a in more
    {
      hide Reported;
    }

    lemma OutputFold()
      requires HasRecoveredPackets ==>
                 && RecoveredPackets == Reported(RecoveredFrom, Window.History) && RecoveredFrom != []
                 && forall a :: a in RecoveredFrom ==> a in Window.Received
      ensures OutputValid()
    {
      hide Reported;
    }

    method Grow(windowElementEnd: nat)
      requires Working() && windowElementEnd <= COLUMN_PERIOD / 2 && Window.Base + windowElementEnd <= |Window.History|
      modifies Window`Count, Window`Originals, Window`MatrixColumns
      ensures Working() && Window.Count == if windowElementEnd > old(Window.Count) then windowElementEnd else old(Window.Count)
    {
      hide *;
      WorkParts();
      NextParts();
      RowsListed();
      MatrixUnderlies();
      WindowPieces();
      ghost var count, matrixColumns := Window.Count, Window.MatrixColumns;
      Window.GrowWindow(windowElementEnd);
      WindowWhole();
      GrownColumns(count, matrixColumns);
      ListedGrown(Recoveries, Raw, Window.History, Window.Base, count, Window.NextExpectedElement, Window.SumBase, Window.Live, Window.Count);
      UnderliesGrown(Region, Recoveries, Raw, Window.Received, Window.Base, Matrix.Original, Matrix.LostCounts, Matrix.Columns, ColumnNumbers,
              matrixColumns, Window.MatrixColumns, PreviousNextCheckStart);
      RowsFold();
      RegionFold();
      MatrixFold();
      Works();
    }

    lemma WindowPieces()
      requires Window.Valid() && Window.NextBound()
      ensures Window.WindowValid() && Window.PendingValid() && Window.SumsValid() && Window.StartValid() && |Window.MatrixColumns| == Window.Count
    {
      hide AllHold, AllStale, EndsBefore, Wrap;
    }

    lemma WindowWhole()
      requires Window.WindowValid() && Window.PendingValid() && Window.SumsValid() && Window.StartValid()
      ensures Window.Valid()
    {
      hide AllHold, AllStale, EndsBefore, Wrap;
    }

    lemma GrownColumns(count: nat, matrixColumns: seq<nat>)
      requires Window.NextBound() && count <= Window.Count && |matrixColumns| == count && Window.MatrixColumns[..count] == matrixColumns
      ensures |matrixColumns| <= |Window.MatrixColumns| && Window.MatrixColumns[..|matrixColumns|] == matrixColumns
    {}

    // A recovery packet the encoder may have sent. Everything before its light
    // range has been received here, or the encoder would still protect it.
    ghost predicate Sent(m: Metadata, start: nat)
      reads Window`History, Window`Received
    {
      && ValidMetadata(m) && Wrap(start) == m.columnStart && (m.sumCount == 1 ==> m.row == 0)
      && start + m.sumCount <= |Window.History|
      && (forall a: nat :: a < start + m.sumCount - m.ldpcCount ==> a in Window.Received)
    }

    // Its end is no more than half the column period behind the packets the window
    // knows of, and less than the period past the front.
    ghost predicate InTime(m: Metadata, start: nat)
      reads Window`Base, Window`Count
    {
      Window.Base + Window.Count <= start + m.sumCount + COLUMN_PERIOD / 2 && start + m.sumCount < Window.Base + COLUMN_PERIOD
    }

    // Unless it is ignored for its end, the sum it wants started is told from stopped
    // sums by its column number.
    ghost predicate StartTold(m: Metadata, start: nat)
      reads Window`Base, Window`SumBase, Window`Live
    {
      start + m.sumCount < Window.Base + COLUMN_PERIOD / 2 ==> LastApart(m, start, Window.Base, Window.SumBase, Window.Live)
    }

    // If it is to be listed, the packet takes the place of the last one received in
    // order, or is not half the column period past it.
    ghost predicate LastTold(m: Metadata, start: nat)
      reads this`LastStart, this`LastRecoveryMetadata, this`LatestColumn, Window
    {
      Needed(m, start, OutOfOrder(m)) ==> LastNear(m, start, OutOfOrder(m))
    }

    ghost predicate LastNear(m: Metadata, start: nat, outOfOrder: bool)
      reads this`LastStart, this`LastRecoveryMetadata
    {
      outOfOrder ==> start + m.sumCount <= LastStart + LastRecoveryMetadata.sumCount + COLUMN_PERIOD / 2
    }

    ghost predicate Arrives(m: Metadata, start: nat)
      reads Window
    {
      Sent(m, start) && InTime(m, start) && StartTold(m, start)
    }

    // The packet seems to end after the front of the window, it protects the
    // next expected element, and what it sums up is in the window or in the running sums.
    ghost predicate Needed(m: Metadata, start: nat, outOfOrder: bool)
      reads Window
    {
      if Window.Count == 0 then !outOfOrder
      else
        && Window.Base + m.ldpcCount <= start + m.sumCount < Window.Base + COLUMN_PERIOD / 2
        && Window.Base + Window.NextExpectedElement < start + m.sumCount
        && (m.sumCount > CAUCHY_THRESHOLD ==>
              (Window.SumColumnCount > 0 && Window.SumColumnStart == m.columnStart) || Window.Base <= start < Window.Base + Window.Count)
    }

    // All its range has been received, and it is in order: it decides what may be
    // removed from the window if none are listed.
    ghost predicate Passed(m: Metadata, start: nat, outOfOrder: bool)
      reads Window
    {
      && Window.Count > 0 && !outOfOrder && start + m.sumCount <= Window.Base + Window.NextExpectedElement
      && Window.Base + m.ldpcCount + DECODER_REMOVE_THRESHOLD <= start + m.sumCount < Window.Base + COLUMN_PERIOD / 2
    }

    // If it is listed, that leaves the list in order.
    ghost predicate Welcome(m: Metadata, payload: Gf, start: nat)
      reads this`Recoveries, this`LatestColumn, Window
    {
      var r := Placed(m, payload, start, Window.Base);
      Needed(m, start, OutOfOrder(m)) && m.sumCount > 1 ==> Fitting(Recoveries, Place(Recoveries, r), r, Window.Base, Window.RunningSums())
    }

    lemma WelcomeIs(m: Metadata, payload: Gf, start: nat)
      ensures var r := Placed(m, payload, start, Window.Base);
              Welcome(m, payload, start) <==>
                (Needed(m, start, OutOfOrder(m)) && m.sumCount > 1 ==> Fitting(Recoveries, Place(Recoveries, r), r, Window.Base, Window.RunningSums()))
    {
      hide Needed, OutOfOrder, Fitting, Place, Placed;
    }

    lemma PassedIs(m: Metadata, start: nat, outOfOrder: bool)
      ensures Passed(m, start, outOfOrder) <==>
                && Window.Count > 0 && !outOfOrder && start + m.sumCount <= Window.Base + Window.NextExpectedElement
                && Window.Base + m.ldpcCount + DECODER_REMOVE_THRESHOLD <= start + m.sumCount < Window.Base + COLUMN_PERIOD / 2
    {}

    lemma EndElement(m: Metadata, start: nat)
      requires Window.WindowValid() && Arrives(m, start)
      ensures var e, end := Window.ColumnToElement(AddColumns(m.columnStart, m.sumCount)), start + m.sumCount;
              if Window.Base <= end then e == end - Window.Base else IsColumnDeltaNegative(e)
    {
      AddWrapped(m.sumCount, start);
      if Window.Base <= start + m.sumCount {
        SubtractWrapped(start + m.sumCount, Window.Base);
      } else {
        SubtractBehind(start + m.sumCount, Window.Base);
      }
    }

    lemma StartElement(m: Metadata, start: nat)
      requires Window.WindowValid() && Arrives(m, start) && Window.Base <= start + m.sumCount < Window.Base + COLUMN_PERIOD / 2
      ensures Window.ColumnToElement(m.columnStart) < Window.Count <==> Window.Base <= start < Window.Base + Window.Count
    {
      if Window.Base <= start {
        SubtractWrapped(start, Window.Base);
      } else {
        SubtractBehind(start, Window.Base);
      }
    }

    // Before anything was received, a row starts at the first packet.
    lemma FirstPacket(m: Metadata, start: nat)
      requires Window.WindowValid() && Window.NextBound() && Arrives(m, start) && Window.Count == 0
      ensures Window.Base == 0 == start && m.ldpcCount == m.sumCount && m.columnStart == Window.ColumnStart && Window.NextExpectedElement == 0
    {
      var received := Window.Received;
      assert 0 < start + m.sumCount - m.ldpcCount ==> 0 in received;
    }

    // The light range reaches down to the next expected element at least.
    lemma LightRangeCovers(m: Metadata, start: nat)
      requires Window.WindowValid() && Window.NextValid() && Arrives(m, start) && Window.Base + m.ldpcCount <= start + m.sumCount
      ensures start + m.sumCount - m.ldpcCount <= Window.Base + Window.NextExpectedElement
    {
      hide Wrap;
      var next, received := Window.Base + Window.NextExpectedElement, Window.Received;
      assert next < start + m.sumCount - m.ldpcCount ==> next in received;
    }

    lemma SentParts(m: Metadata, start: nat)
      requires Arrives(m, start)
      ensures 1 <= m.ldpcCount <= m.sumCount <= MAX_PACKETS && start + m.sumCount <= |Window.History|
      ensures start + m.sumCount < Window.Base + COLUMN_PERIOD && (start == 0 ==> start + m.sumCount < COLUMN_PERIOD / 2)
      ensures Window.Base + Window.Count <= start + m.sumCount + COLUMN_PERIOD / 2
    {
      hide Wrap;
    }

    lemma SentNear(m: Metadata, start: nat)
      requires Window.Valid() && Arrives(m, start)
      requires m.sumCount > CAUCHY_THRESHOLD ==> Window.SumColumnCount > 0 || Window.Base <= start
      requires start + m.sumCount < Window.Base + COLUMN_PERIOD / 2
      ensures Near(m, start, Window.Base, Window.SumBase, Window.Live)
    {
      hide Wrap, AllHold, AllStale, EndsBefore;
    }

    // All the range of the packet has been received.
    lemma SentLast(m: Metadata, start: nat)
      requires Arrives(m, start) && start + m.sumCount <= Window.Base + Window.NextExpectedElement && RowsValid() && Window.NextBound()
      requires start + m.sumCount < Window.Base + COLUMN_PERIOD / 2
      ensures LastKept(m, start, Recoveries, Window.Base, Window.NextExpectedElement, Window.SumBase, Window.Live)
    {
      hide Wrap, ValidMetadata, Carries, Near, LastApart, ToldApart;
      LastReplaced(m, start, Recoveries, Window.Base, Window.Count, Window.NextExpectedElement, Window.SumBase, Window.Live);
    }

    lemma NegativeIs()
      ensures forall e: nat :: IsColumnDeltaNegative(e) <==> e >= COLUMN_PERIOD / 2
    {}

    lemma NeededIs(m: Metadata, start: nat, outOfOrder: bool)
      ensures Window.Count == 0 ==> (Needed(m, start, outOfOrder) <==> !outOfOrder)
      ensures Window.Count != 0 ==> (Needed(m, start, outOfOrder) <==>
                && Window.Base + m.ldpcCount <= start + m.sumCount < Window.Base + COLUMN_PERIOD / 2
                && Window.Base + Window.NextExpectedElement < start + m.sumCount
                && (m.sumCount > CAUCHY_THRESHOLD ==>
                      (Window.SumColumnCount > 0 && Window.SumColumnStart == m.columnStart) || Window.Base <= start < Window.Base + Window.Count))
    {}

    // Places a recovery packet in the window; false if it is of no use.
    method Admit(m: Metadata, outOfOrder: bool, ghost start: nat) returns (wanted: bool, elementStart: nat, elementEnd: nat)
      requires !EmergencyDisabled && Working() && LastValid() && Arrives(m, start)
      modifies this`Recoveries, this`EmergencyDisabled, this`Region, this`SolveFailed, this`ColumnNumbers, this`PreviousNextCheckStart,
              this`LastRecoveryMetadata, this`LastStart, Window, Matrix
      ensures Window.History == old(Window.History) && Window.Received == old(Window.Received)
      ensures EmergencyDisabled || (Working() && LastValid() && (Window.Base + Window.Count == old(Window.Base + Window.Count) || Window.Base + Window.Count == start + m.sumCount))
      ensures wanted <==> old(Needed(m, start, outOfOrder))
      ensures !wanted && !EmergencyDisabled ==> SamePackets(old(Recoveries), old(Window.Base), Recoveries, Window.Base)
      ensures wanted ==> !EmergencyDisabled && Window.Base == old(Window.Base) && Recoveries == old(Recoveries)
      ensures wanted ==> elementStart + m.ldpcCount == elementEnd <= Window.Count && elementStart <= Window.NextExpectedElement < elementEnd
      ensures wanted ==> Window.Base + elementEnd == start + m.sumCount && Near(m, start, Window.Base, Window.SumBase, Window.Live)
      ensures wanted ==> Window.Base + Window.Count <= start + m.sumCount + COLUMN_PERIOD / 2
      ensures wanted ==> Region == old(Region) && LastStart == old(LastStart) && LastRecoveryMetadata == old(LastRecoveryMetadata)
      ensures old(Window.Count) > 0 && start + m.sumCount >= old(Window.Base) + COLUMN_PERIOD / 2 ==>
                !EmergencyDisabled && Recoveries == old(Recoveries) && Window.Base == old(Window.Base) && Window.Count == old(Window.Count)
      ensures wanted ==> Window.RunningSums() == old(Window.RunningSums())
      ensures old(RowsInOrder()) && !EmergencyDisabled ==> RowsInOrder()
      ensures EmergencyDisabled ==> old(Passed(m, start, outOfOrder)) && (old(RowsInOrder()) ==> old(Recoveries) == [])
      ensures old(Recoveries) == [] && old(Passed(m, start, outOfOrder)) ==> (EmergencyDisabled <==> old(Window.LastClips(m, start)))
      ensures old(Recoveries) == [] && old(Passed(m, start, outOfOrder)) && !EmergencyDisabled ==>
                MovedFront(m, old(Window.Base), old(Window.LastRemoves(m, start)), old(Window.SumColumnStart), old(Window.SumColumnCount))
    {
      hide *;
      WorkParts();
      NextParts();
      SentParts(m, start);
      NeededIs(m, start, outOfOrder);
      PassedIs(m, start, outOfOrder);
      NegativeIs();
      elementStart, elementEnd := 0, 0;
      UnmovedPackets(Recoveries, Window.Base);
      if Window.Count == 0 {
        if outOfOrder {
          return false, 0, 0;
        }
        FirstPacket(m, start);
        SentNear(m, start);
        Window.ColumnStart := m.columnStart;
        Grow(m.sumCount);
        elementEnd := m.sumCount;
        elementStart := elementEnd - m.ldpcCount;
      } else {
        elementEnd := Window.ColumnToElement(AddColumns(m.columnStart, m.sumCount));
        EndElement(m, start);
        if IsColumnDeltaNegative(elementEnd) || elementEnd < m.ldpcCount {
          return false, 0, 0;
        }
        elementStart := elementEnd - m.ldpcCount;
        if elementEnd <= Window.NextExpectedElement {
          if !outOfOrder && elementStart >= DECODER_REMOVE_THRESHOLD {
            SentLast(m, start);
            LastRecoveryMetadata, LastStart := m, start;
            LastFold();
            RemoveElements();
            if !EmergencyDisabled {
              Works();
            }
          }
          return false, 0, 0;
        }
        StartElement(m, start);
        if m.sumCount > CAUCHY_THRESHOLD {
          if Window.SumColumnCount == 0 || Window.SumColumnStart != m.columnStart {
            var elementSumStart := Window.ColumnToElement(m.columnStart);
            if elementSumStart >= Window.Count {
              return false, 0, 0;
            }
          }
        }
        LightRangeCovers(m, start);
        SentNear(m, start);
        Grow(elementEnd);
      }
      wanted := true;
    }

    // The packet was put in its place, and the region is looked at again unless that
    // is behind all others.
    ghost predicate JustListed(recs: seq<Recovery>, r: Recovery, region: CheckedRegion)
      reads this`Recoveries, this`Region, this`EmergencyDisabled
    {
      && Recoveries == Inserted(recs, r) && !EmergencyDisabled
      && Region == if Place(recs, r) == 0 || Place(recs, r) < |recs| then NO_REGION else region
    }

    // ... and elements not needed any more have been dropped from the front of the window,
    // if its light range does not start too near to that.
    ghost predicate ListedNow(recs: seq<Recovery>, r: Recovery, base: nat, region: CheckedRegion)
      reads this`Recoveries, this`Region, this`EmergencyDisabled, Window`Base, Window`NextExpectedElement
    {
      && (!EmergencyDisabled ==> SamePackets(Inserted(recs, r), base, Recoveries, Window.Base) && Trimmed())
      && (r.elementStart < DECODER_REMOVE_THRESHOLD ==> Window.Base == base && JustListed(recs, r, region))
    }

    lemma ListedNowFold(recs: seq<Recovery>, r: Recovery, base: nat, region: CheckedRegion)
      requires !EmergencyDisabled ==> SamePackets(Inserted(recs, r), base, Recoveries, Window.Base) && Trimmed()
      requires r.elementStart < DECODER_REMOVE_THRESHOLD ==> Window.Base == base && JustListed(recs, r, region)
      ensures ListedNow(recs, r, base, region)
    {
      hide Inserted, JustListed, SamePackets;
      hide Decoder.Trimmed;
    }

    lemma ListedNowParts(recs: seq<Recovery>, r: Recovery, base: nat, region: CheckedRegion)
      requires ListedNow(recs, r, base, region)
      ensures r.elementStart < DECODER_REMOVE_THRESHOLD ==> Window.Base == base && JustListed(recs, r, region)
    {
      hide Inserted, JustListed, SamePackets;
      hide Decoder.Trimmed;
    }

    // Files a recovery packet in the list.
    method Insert(r: Recovery, outOfOrder: bool, ghost start: nat)
      requires Working() && LastValid() && !EmergencyDisabled && StartOf(r, Window.Base) == start && LastNear(r.metadata, start, outOfOrder)
      requires Window.Base + Window.Count <= start + r.metadata.sumCount + COLUMN_PERIOD / 2
      requires Sound(r, Raw, Window.History, Window.Base, Window.Count, Window.NextExpectedElement, Window.SumBase, Window.Live)
      modifies this`Recoveries, this`Region, this`SolveFailed, this`ColumnNumbers, this`PreviousNextCheckStart, this`LastRecoveryMetadata, this`LastStart, Matrix
      ensures Working() && LastValid() && JustListed(old(Recoveries), r, old(Region))
      ensures LastRecoveryMetadata == (if outOfOrder then old(LastRecoveryMetadata) else r.metadata)
      ensures LastStart == if outOfOrder then old(LastStart) else start
      ensures old(RowsInOrder() && Fitting(Recoveries, Place(Recoveries, r), r, Window.Base, Window.RunningSums())) ==> RowsInOrder()
    {
      hide *;
      WorkParts();
      RowsListed();
      MatrixUnderlies();
      ghost var recs := Recoveries;
      OrderIs();
      if RowsInOrder() {
        InsertedInOrder(recs, r, Window.Base, Window.RunningSums());
      }
      ListedInserted(recs, Raw, Window.History, Window.Base, Window.Count, Window.NextExpectedElement, Window.SumBase, Window.Live, r);
      var place := Place(Recoveries, r);
      var count := |Recoveries|;
      LastParts();
      LastAfter(r, outOfOrder, start);
      Recoveries := Inserted(Recoveries, r);
      OrderIs();
      RowsFold();
      RowsRanged();
      NextParts();
      // Fewer packets than before may do, now that one is not behind all others.
      if place == 0 || place < count {
        ResetRegion();
      } else {
        InsertedBehind(recs, r);
        CheckedLonger(Region, recs, Recoveries, Window.Received, Window.Base);
        UnderliesExtended(Region, Region, recs, Recoveries, Raw, Window.Received, Window.Base, Matrix.Original, Matrix.LostCounts,
                Matrix.Columns, ColumnNumbers, Window.MatrixColumns, PreviousNextCheckStart);
        RegionFold();
        MatrixFold();
      }
      Works();
      if !outOfOrder {
        LastRecoveryMetadata, LastStart := r.metadata, start;
      }
      LastFold();
      JustListedFold(recs, r, old(Region));
    }

    lemma JustListedFold(recs: seq<Recovery>, r: Recovery, region: CheckedRegion)
      requires Recoveries == Inserted(recs, r) && !EmergencyDisabled
      requires Region == if Place(recs, r) == 0 || Place(recs, r) < |recs| then NO_REGION else region
      ensures JustListed(recs, r, region)
    {
      hide Inserted, Place;
    }

    lemma JustListedParts(recs: seq<Recovery>, r: Recovery, region: CheckedRegion)
      requires JustListed(recs, r, region)
      ensures Recoveries == Inserted(recs, r) && !EmergencyDisabled
      ensures r.elementStart < DECODER_REMOVE_THRESHOLD ==> Trimmed()
    {
      hide Inserted, Place;
      InsertedHas(recs, r);
      var i :| 0 <= i < |Recoveries| && Recoveries[i] == r;
      NeedsStart(Recoveries, i, Window.Base);
      OneNeeds(Recoveries, i, Window.Base, r.elementStart + 1);
      if r.elementStart < DECODER_REMOVE_THRESHOLD {
        NeedsMore(Recoveries, Window.Base, r.elementStart + 1, DECODER_REMOVE_THRESHOLD);
      }
    }

    // The last packet in order once r is listed.
    lemma LastAfter(r: Recovery, outOfOrder: bool, start: nat)
      requires RowsValid() && LastValid() && StartOf(r, Window.Base) == start && LastNear(r.metadata, start, outOfOrder)
      requires Sound(r, Raw, Window.History, Window.Base, Window.Count, Window.NextExpectedElement, Window.SumBase, Window.Live)
      requires Window.Base + Window.Count <= start + r.metadata.sumCount + COLUMN_PERIOD / 2
      ensures LastKept(if outOfOrder then LastRecoveryMetadata else r.metadata, if outOfOrder then LastStart else start, Inserted(Recoveries, r),
                  Window.Base, Window.NextExpectedElement, Window.SumBase, Window.Live)
    {
      hide Wrap, ValidMetadata, Carries, Kept, ToldApart;
      if outOfOrder {
        LastStays(LastRecoveryMetadata, LastStart, Recoveries, Window.Base, Window.NextExpectedElement, Window.SumBase, Window.Live, r);
      } else {
        InsertedSorted(Recoveries, r);
        InsertedHas(Recoveries, r);
        LastReplaced(r.metadata, start, Inserted(Recoveries, r), Window.Base, Window.Count, Window.NextExpectedElement, Window.SumBase, Window.Live);
      }
    }

    // Takes in a recovery packet that repeats a single packet.
    method AddSingleRecovery(m: Metadata, payload: Gf, element: nat, ghost start: nat)
      requires Working() && OutputValid() && LastValid() && !EmergencyDisabled
      requires start == Window.Base + element && m.columnStart == Wrap(start) && element == Window.NextExpectedElement < Window.Count
      requires start < |Window.History| && payload == Window.History[start]
      modifies this`Recoveries, this`Region, this`SolveFailed, this`ColumnNumbers, this`PreviousNextCheckStart
      modifies this`RecoveredPackets, this`HasRecoveredPackets, this`RecoveredFrom, Window, Matrix
      ensures Usable()
      ensures Recoveries == DeletedBefore(old(Recoveries), Window.NextExpectedElement)
      ensures HasRecoveredPackets && Joins(true, start, old(Window.Received), old(Waiting()), Window.Received, Waiting())
      ensures Window.Base + Window.Count == old(Window.Base + Window.Count) && Window.History == old(Window.History)
      ensures old(RowsInOrder()) ==> RowsInOrder()
    {
      hide *;
      WaitingIs();
      ghost var received, waiting := Window.Received, Waiting();
      ReportLater(m.columnStart, payload, start);
      MarkSingle(m.columnStart, payload, element, start);
      OutputFold();
      UsableFold();
      WaitingIs();
      OneJoins(start, received, waiting);
    }

    // Files the next expected packet as recovered.
    method MarkSingle(column: nat, payload: Gf, element: nat, ghost start: nat)
      requires Working() && LastValid()
      requires start == Window.Base + element && column == Wrap(start) && element == Window.NextExpectedElement < Window.Count
      requires start < |Window.History| && payload == Window.History[start]
      modifies this`Recoveries, this`Region, this`SolveFailed, this`ColumnNumbers, this`PreviousNextCheckStart, Matrix
      modifies Window`Originals, Window`RecoveredColumns, Window`Received, Window`Pending, Window`NextExpectedElement
      ensures Working() && LastValid()
      ensures start !in old(Window.Received) && Window.Received == old(Window.Received) + {start}
      ensures Recoveries == DeletedBefore(old(Recoveries), Window.NextExpectedElement)
      ensures old(RowsInOrder()) ==> RowsInOrder()
    {
      hide *;
      WorkParts();
      NextParts();
      NextFacts();
      WindowPieces();
      RowsListed();
      MatrixUnderlies();
      LastParts();
      ghost var received, matrixColumns := Window.Received, Window.MatrixColumns;
      var nextExpected := Window.NextExpectedElement;
      var isNext := Window.MarkRecovered(column, payload, start);
      assert isNext;
      WindowParts();
      Window.IterateNextExpectedElement(element + 1);
      NextParts();
      assert matrixColumns == Window.MatrixColumns && matrixColumns[..|matrixColumns|] == matrixColumns;
      assert Window.Received == received + {start} && Window.Base + element == start;
      Arrived(element, nextExpected, received, Window.Count, matrixColumns, start);
      assert Window.Valid() && Window.SumsWhole();
      Works();
    }

    // Keeps a recovered packet to be reported by the next Decode.
    method ReportLater(packetNum: nat, value: Gf, ghost a: nat)
      requires OutputValid() && a < |Window.History| && packetNum == Wrap(a) && value == Window.History[a]
      modifies this`RecoveredPackets, this`HasRecoveredPackets, this`RecoveredFrom
      ensures HasRecoveredPackets && RecoveredFrom == (if old(HasRecoveredPackets) then old(RecoveredFrom) else []) + [a]
      ensures RecoveredPackets == Reported(RecoveredFrom, Window.History)
      ensures forall b :: b in RecoveredFrom ==> b in Window.Received + {a}
    {
      hide Reported, Wrap;
      if !HasRecoveredPackets {
        HasRecoveredPackets, RecoveredPackets, RecoveredFrom := true, [], [];
        NoneReported(Window.History);
      }
      ReportedSnoc(RecoveredFrom, a, Window.History);
      RecoveredPackets, RecoveredFrom := RecoveredPackets + [Original(packetNum, value)], RecoveredFrom + [a];
    }

    // Does the packet seem older than one received before?  The subtraction is
    // that of 32-bit unsigned numbers.
    predicate OutOfOrder(m: Metadata)
      reads this`LatestColumn
    {
      IsColumnDeltaNegative((m.columnStart + m.sumCount - LatestColumn) % 0x1_0000_0000)
    }

    // It is meant to tell whether the packet's range ends before the latest end.
    // It tells so exactly, but also of packets whose sum starts in another period
    // of the column numbers than the latest end lies in.
    lemma OutOfOrderExactly(m: Metadata, start: nat, latest: nat)
      requires ValidMetadata(m) && m.columnStart == Wrap(start) && LatestColumn == Wrap(latest)
      requires start + m.sumCount < latest + COLUMN_PERIOD / 2 && latest < start + m.sumCount + COLUMN_PERIOD / 2
      ensures OutOfOrder(m) <==> start + m.sumCount < latest || start / COLUMN_PERIOD != latest / COLUMN_PERIOD
    {
      PeriodsApart(start, m.sumCount, latest);
    }

    // Takes in a recovery packet.
    method AddRecovery(m: Metadata, payload: Gf, ghost start: nat) returns (result: SiameseResult)
      requires Sent(m, start) && payload == Dot(CoefficientRow(Raw, m), Window.History[start..start + m.sumCount])
      requires Valid() && (EmergencyDisabled || (InTime(m, start) && StartTold(m, start) && LastTold(m, start)))
      modifies this, Window, Matrix
      ensures Valid() && Window.History == old(Window.History)
      ensures result == if old(EmergencyDisabled) then Disabled else Success
      ensures old(EmergencyDisabled) ==> EmergencyDisabled
      ensures Joins(!old(EmergencyDisabled) && m.sumCount == 1 && old(Needed(m, start, OutOfOrder(m))), start,
                  old(Window.Received), old(Waiting()), Window.Received, Waiting())
      ensures Given == old(Given) && Arrivals == old(Arrivals)
      ensures !EmergencyDisabled ==> Window.Base + Window.Count == old(Window.Base + Window.Count) || Window.Base + Window.Count == start + m.sumCount
      ensures !old(EmergencyDisabled) && old(Needed(m, start, OutOfOrder(m))) ==>
                if m.sumCount == 1 then !EmergencyDisabled && Recoveries == DeletedBefore(old(Recoveries), Window.NextExpectedElement)
                else
                  && ListedNow(old(Recoveries), Placed(m, payload, start, old(Window.Base)), old(Window.Base), old(Region))
                  && HasRecoveredPackets == old(HasRecoveredPackets)
                  && (!old(OutOfOrder(m)) ==> LastRecoveryMetadata == m && LastStart == start)
      ensures !EmergencyDisabled && !old(Needed(m, start, OutOfOrder(m))) ==>
                SamePackets(old(Recoveries), old(Window.Base), Recoveries, Window.Base)
      ensures !old(EmergencyDisabled) && old(Window.Count) > 0 && start + m.sumCount >= old(Window.Base) + COLUMN_PERIOD / 2 ==>
                !EmergencyDisabled && Recoveries == old(Recoveries) && Window.Base == old(Window.Base) && Window.Count == old(Window.Count)
      ensures !old(EmergencyDisabled) && old(RowsInOrder() && Welcome(m, payload, start)) ==>
                if EmergencyDisabled then old(Recoveries == [] && Passed(m, start, OutOfOrder(m))) else RowsInOrder()
      ensures !old(EmergencyDisabled) && old(Recoveries == [] && Passed(m, start, OutOfOrder(m))) ==>
                if old(Window.LastClips(m, start)) then EmergencyDisabled
                else
                  && !EmergencyDisabled
                  && MovedFront(m, old(Window.Base), old(Window.LastRemoves(m, start)), old(Window.SumColumnStart), old(Window.SumColumnCount))
      ensures !old(EmergencyDisabled) ==> LatestColumn == if old(OutOfOrder(m)) then old(LatestColumn) else AddColumns(m.columnStart, m.sumCount)
    {
      hide *;
      ghost var received, waiting := Window.Received, Waiting();
      NoneJoins(start, received, waiting);
      if EmergencyDisabled {
        return Disabled;
      }
      ValidParts();
      WaitingIs();
      var outOfOrder := OutOfOrder(m);
      WelcomeIs(m, payload, start);
      if !outOfOrder {
        LatestColumn := AddColumns(m.columnStart, m.sumCount);
      }
      OutputKept(Window.Received);
      MadeFold(m, payload, start);
      ArrivesFold(m, start);
      NeededIs(m, start, outOfOrder);
      PassedIs(m, start, outOfOrder);
      LastToldIs(m, start);
      var wanted, elementStart, elementEnd := Admit(m, outOfOrder, start);
      OutputFold();
      result := Success;
      if !wanted {
        UsableAgain();
        LedgerFold(false, start, received, waiting);
        ValidFold();
        return;
      }
      SuitsIs(Placed(m, payload, start, Window.Base));
      UsableFold();
      FileRecovery(m, payload, outOfOrder, elementStart, elementEnd, start);
      LedgerFold(m.sumCount == 1, start, received, waiting);
      ValidFold();
    }

    lemma LedgerFold(one: bool, a: nat, was: set<nat>, waited: seq<nat>)
      requires Accounted(Arrivals, Given, waited, was) && Joins(one, a, was, waited, Window.Received, Waiting())
      ensures Ledger()
    {
      hide Accounted, Joins;
      JoinsAccounted(Arrivals, Given, one, a, was, waited, Window.Received, Waiting());
    }

    // The packet carries its row applied to the packets from `start` on.
    ghost predicate Made(m: Metadata, payload: Gf, start: nat)
      reads Window`History
    {
      && ValidMetadata(m) && Wrap(start) == m.columnStart && (m.sumCount == 1 ==> m.row == 0) && start + m.sumCount <= |Window.History|
      && payload == Dot(CoefficientRow(Raw, m), Window.History[start..start + m.sumCount])
    }

    lemma MadeParts(m: Metadata, payload: Gf, start: nat)
      requires Made(m, payload, start)
      ensures ValidMetadata(m) && Wrap(start) == m.columnStart && (m.sumCount == 1 ==> m.row == 0 && m.ldpcCount == 1)
      ensures 1 <= m.sumCount && start + m.sumCount <= |Window.History|
      ensures payload == Dot(CoefficientRow(Raw, m), Window.History[start..start + m.sumCount])
    {
      hide Dot, CoefficientRow, Wrap;
    }

    lemma MadeFold(m: Metadata, payload: Gf, start: nat)
      requires Sent(m, start) && payload == Dot(CoefficientRow(Raw, m), Window.History[start..start + m.sumCount])
      ensures Made(m, payload, start)
    {
      hide Dot, CoefficientRow, Wrap;
    }

    // Listing it keeps the order.
    ghost predicate Suits(r: Recovery)
      reads this`Recoveries, Window`Base, Window`SumBase, Window`SumColumnCount
    {
      Fitting(Recoveries, Place(Recoveries, r), r, Window.Base, Window.RunningSums())
    }

    lemma SuitsIs(r: Recovery)
      ensures Suits(r) <==> Fitting(Recoveries, Place(Recoveries, r), r, Window.Base, Window.RunningSums())
    {
      hide Fitting, Place;
    }

    // Files a recovery packet that is of use: a copy of a single packet, or one to list.
    method FileRecovery(m: Metadata, payload: Gf, outOfOrder: bool, elementStart: nat, elementEnd: nat, ghost start: nat)
      requires Usable() && !EmergencyDisabled && LastNear(m, start, outOfOrder)
      requires Made(m, payload, start)
      requires elementStart + m.ldpcCount == elementEnd <= Window.Count && elementStart <= Window.NextExpectedElement < elementEnd
      requires Window.Base + elementEnd == start + m.sumCount && Near(m, start, Window.Base, Window.SumBase, Window.Live)
      requires Window.Base + Window.Count <= start + m.sumCount + COLUMN_PERIOD / 2
      modifies this`Recoveries, this`EmergencyDisabled, this`Region, this`SolveFailed, this`ColumnNumbers, this`PreviousNextCheckStart
      modifies this`LastRecoveryMetadata, this`LastStart, this`RecoveredPackets, this`HasRecoveredPackets, this`RecoveredFrom, Window, Matrix
      ensures Usable() && Window.History == old(Window.History)
      ensures !EmergencyDisabled ==> Window.Base + Window.Count == old(Window.Base + Window.Count)
      ensures Joins(m.sumCount == 1, start, old(Window.Received), old(Waiting()), Window.Received, Waiting())
      ensures if m.sumCount == 1 then !EmergencyDisabled && Recoveries == DeletedBefore(old(Recoveries), Window.NextExpectedElement)
              else
                && HasRecoveredPackets == old(HasRecoveredPackets)
                && ListedNow(old(Recoveries), Placed(m, payload, start, old(Window.Base)), old(Window.Base), old(Region))
                && (!outOfOrder ==> LastRecoveryMetadata == m && LastStart == start)
      ensures var r := Placed(m, payload, start, old(Window.Base));
              old(RowsInOrder() && (m.sumCount > 1 ==> Suits(r))) ==> !EmergencyDisabled && RowsInOrder()
    {
      hide *;
      UsableIs();
      MadeParts(m, payload, start);
      if m.sumCount == 1 {
        SingleRow(Raw, m, Window.History, start);
        AddSingleRecovery(m, payload, elementStart, start);
        return;
      }
      NoneJoins(start, Window.Received, Waiting());
      var r := Recovery(m, elementStart, elementEnd, 0, payload);
      RowSound(r, start);
      PlacedIs(r, start);
      SuitsIs(r);
      WaitingIs();
      ListRecovery(r, outOfOrder, start);
      WaitingIs();
    }

    // Lists it, with packets to be reported kept.
    method ListRecovery(r: Recovery, outOfOrder: bool, ghost start: nat)
      requires Working() && LastValid() && OutputValid() && !EmergencyDisabled && r.lostCount == 0
      requires StartOf(r, Window.Base) == start && LastNear(r.metadata, start, outOfOrder)
      requires Window.Base + Window.Count <= start + r.metadata.sumCount + COLUMN_PERIOD / 2
      requires Sound(r, Raw, Window.History, Window.Base, Window.Count, Window.NextExpectedElement, Window.SumBase, Window.Live)
      modifies this`Recoveries, this`EmergencyDisabled, this`Region, this`SolveFailed, this`ColumnNumbers, this`PreviousNextCheckStart,
              this`LastRecoveryMetadata, this`LastStart, Window, Matrix
      ensures Usable() && Window.History == old(Window.History) && Window.Received == old(Window.Received)
      ensures !EmergencyDisabled ==> Window.Base + Window.Count == old(Window.Base + Window.Count)
      ensures ListedNow(old(Recoveries), r, old(Window.Base), old(Region))
      ensures !outOfOrder ==> LastRecoveryMetadata == r.metadata && LastStart == start
      ensures old(RowsInOrder() && Fitting(Recoveries, Place(Recoveries, r), r, Window.Base, Window.RunningSums())) ==> !EmergencyDisabled && RowsInOrder()
    {
      hide *;
      OutputKept(Window.Received);
      AddSeveralRecovery(r, outOfOrder, start);
      OutputFold();
      UsableAgain();
    }

    // Lists a recovery packet and drops elements from the front if possible.
    method AddSeveralRecovery(r: Recovery, outOfOrder: bool, ghost start: nat)
      requires Working() && LastValid() && !EmergencyDisabled && r.lostCount == 0
      requires StartOf(r, Window.Base) == start && LastNear(r.metadata, start, outOfOrder)
      requires Window.Base + Window.Count <= start + r.metadata.sumCount + COLUMN_PERIOD / 2
      requires Sound(r, Raw, Window.History, Window.Base, Window.Count, Window.NextExpectedElement, Window.SumBase, Window.Live)
      modifies this`Recoveries, this`EmergencyDisabled, this`Region, this`SolveFailed, this`ColumnNumbers, this`PreviousNextCheckStart,
              this`LastRecoveryMetadata, this`LastStart, Window, Matrix
      ensures Window.History == old(Window.History) && Window.Received == old(Window.Received)
      ensures !EmergencyDisabled ==> Window.Base + Window.Count == old(Window.Base + Window.Count)
      ensures !EmergencyDisabled ==> Working() && LastValid()
      ensures ListedNow(old(Recoveries), r, old(Window.Base), old(Region))
      ensures LastRecoveryMetadata == (if outOfOrder then old(LastRecoveryMetadata) else r.metadata)
      ensures LastStart == if outOfOrder then old(LastStart) else start
      ensures old(RowsInOrder() && Fitting(Recoveries, Place(Recoveries, r), r, Window.Base, Window.RunningSums())) ==> !EmergencyDisabled && RowsInOrder()
    {
      hide *;
      ghost var recs := Recoveries;
      UnmovedPackets(Inserted(recs, r), Window.Base);
      Insert(r, outOfOrder, start);
      JustListedParts(recs, r, old(Region));
      if r.elementStart >= DECODER_REMOVE_THRESHOLD {
        WorkParts();
        InsertedSome(recs, r);
        RemoveElements();
        if !EmergencyDisabled {
          Works();
        }
      }
      ListedNowFold(recs, r, old(Window.Base), old(Region));
    }

    lemma PlacedIs(r: Recovery, start: nat)
      requires r.elementStart + r.metadata.ldpcCount == r.elementEnd && Window.Base + r.elementEnd == start + r.metadata.sumCount && r.lostCount == 0
      ensures r == Placed(r.metadata, r.payload, start, Window.Base)
    {}

    lemma RowSound(r: Recovery, start: nat)
      requires ValidMetadata(r.metadata) && Wrap(start) == r.metadata.columnStart && start + r.metadata.sumCount <= |Window.History|
      requires r.payload == Dot(CoefficientRow(Raw, r.metadata), Window.History[start..start + r.metadata.sumCount])
      requires r.elementStart + r.metadata.ldpcCount == r.elementEnd <= Window.Count && r.elementStart <= Window.NextExpectedElement < r.elementEnd
      requires Window.Base + r.elementEnd == start + r.metadata.sumCount && Near(r.metadata, start, Window.Base, Window.SumBase, Window.Live)
      ensures StartOf(r, Window.Base) == start
      ensures Sound(r, Raw, Window.History, Window.Base, Window.Count, Window.NextExpectedElement, Window.SumBase, Window.Live)
    {
      hide Dot, CoefficientRow, Near, Wrap;
    }

    lemma LastToldIs(m: Metadata, start: nat)
      ensures LastTold(m, start) <==> (Needed(m, start, OutOfOrder(m)) ==> LastNear(m, start, OutOfOrder(m)))
      ensures LastNear(m, start, false)
    {
      hide Needed, OutOfOrder;
    }

    lemma ArrivesFold(m: Metadata, start: nat)
      requires Sent(m, start) && InTime(m, start) && StartTold(m, start)
      ensures Arrives(m, start)
    {
      hide Sent, InTime, StartTold;
    }

    lemma UsableAgain()
      requires OutputValid() && (EmergencyDisabled || (Working() && LastValid()))
      ensures Usable()
    {
      hide Working, OutputValid, LastValid;
    }
  }

  // The difference of two column numbers that were wrapped separately.
  lemma PeriodsApart(start: nat, count: nat, latest: nat)
    requires count <= MAX_PACKETS
    requires start + count < latest + COLUMN_PERIOD / 2 && latest < start + count + COLUMN_PERIOD / 2
    ensures IsColumnDeltaNegative((Wrap(start) + count - Wrap(latest)) % 0x1_0000_0000)
            <==> start + count < latest || start / COLUMN_PERIOD != latest / COLUMN_PERIOD
  {
    var k, d := latest / COLUMN_PERIOD - start / COLUMN_PERIOD, start + count - latest;
    assert Wrap(start) + count - Wrap(latest) == d + k * COLUMN_PERIOD;
    assert -1 <= k <= 1;
    NegativeWrapped(d + k * COLUMN_PERIOD);
  }

  lemma NegativeWrapped(x: int)
    requires -2 * COLUMN_PERIOD < x < 2 * COLUMN_PERIOD
    ensures IsColumnDeltaNegative(x % 0x1_0000_0000) <==> x < 0 || x >= COLUMN_PERIOD / 2
  {}
}
