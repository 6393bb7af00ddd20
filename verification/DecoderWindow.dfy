// The decoder's packet window and its running lane sums in use.
module DecoderWindow {
  import opened Collections
  import opened Columns
  import opened Gf256
  import opened LinearAlgebra
  import opened Coefficients
  import opened LaneSums
  import opened EncoderWindow
  import opened DecoderSums
  import opened Recoveries
  import opened SumOrder
  import opened Losses

  // The sum of a row starts in the window or carries on from the running sums.
  ghost predicate Servable(m: Metadata, start: int, base: nat, live: bool, sumBase: nat, sumColumnCount: nat) {
    m.sumCount > CAUCHY_THRESHOLD ==> base <= start || (live && start == sumBase && sumColumnCount <= m.sumCount)
  }

  // While the sums are stopped, the row's sum starts in the window, and it is not
  // taken for the start of the stopped sums by its column number.
  ghost predicate Near(m: Metadata, start: int, base: nat, sumBase: nat, live: bool) {
    m.sumCount > CAUCHY_THRESHOLD && !live ==> base <= start && ToldApart(start, sumBase)
  }

  // Different packets have different column numbers.
  ghost predicate ToldApart(start: int, sumBase: nat) {
    0 <= start ==> Wrap(start) == Wrap(sumBase) ==> start == sumBase
  }

  const NO_METADATA := Metadata(0, 0, 0, 0)

  // The last recovery packet received in order, or none so far.
  ghost predicate Kept(last: Metadata, lastStart: nat) {
    Wrap(lastStart) == last.columnStart && (ValidMetadata(last) || (last == NO_METADATA && lastStart == 0))
  }

  // A sum in the window that the last packet may want started is told apart from
  // stopped sums.
  ghost predicate LastApart(last: Metadata, lastStart: nat, base: nat, sumBase: nat, live: bool) {
    last.sumCount > CAUCHY_THRESHOLD && !live && base <= lastStart ==> ToldApart(lastStart, sumBase)
  }

  lemma SparedServable(r: Recovery, first: Recovery, base: nat, count: nat, next: nat, firstKept: nat, removed: nat, target: Metadata, sumColumnCount: nat)
    requires Fits(r, base, count, next) && Fits(first, base, count, next) && count <= COLUMN_PERIOD / 2
    requires target == first.metadata && removed <= firstKept && sumColumnCount <= target.sumCount
    requires Spared(r, base, firstKept, target)
    ensures removed <= r.elementStart && Servable(r.metadata, StartOf(r, base), base + removed, true, StartOf(first, base), sumColumnCount)
  {
    hide Wrap;
    if IsSiamese(r) && Continues(r.metadata, target) {
      SameStart(StartOf(r, base), StartOf(first, base));
    }
  }

  // The elements of whole subwindows before the given one.
  function WholeSubwindows(element: nat): (removed: nat)
    ensures removed <= element < removed + SUBWINDOW_SIZE && removed % SUBWINDOW_SIZE == 0 && removed % LANE_COUNT == 0
    ensures element >= DECODER_REMOVE_THRESHOLD ==> removed > 0
  {
    element / SUBWINDOW_SIZE * SUBWINDOW_SIZE
  }

  const DECODER_REMOVE_THRESHOLD: nat := 2 * SUBWINDOW_SIZE

  // How far the sums may have run: less than a lane past sumEnd, or past the
  // front of the window.
  ghost predicate EndsBefore(lanes: SumLanes, sumEnd: nat, base: nat) {
    && SumShape(lanes)
    && forall l, s :: 0 <= l < LANE_COUNT && 0 <= s < SUM_COUNT ==>
         var limit := if sumEnd < base then base else sumEnd;
         base + lanes[l][s].elementEnd < limit + LANE_COUNT
  }

  // Adds a recovered packet to a sum that had passed over it.
  function PlugOne(r: DecoderSum, element: nat, laneElementStart: nat, s: nat, column: nat, v: Gf): DecoderSum {
    if laneElementStart <= element < r.elementEnd
    then r.(started := true, sum := Add(Value(r), Mul(ColumnPower(column, s), v)))
    else r
  }

  function PlugAll(lanes: SumLanes, element: nat, laneElementStart: nat, column: nat, v: Gf): (r: SumLanes)
    requires SumShape(lanes)
    ensures SumShape(r)
    ensures forall l, s :: 0 <= l < LANE_COUNT && 0 <= s < SUM_COUNT ==>
              r[l][s] == if l == column % LANE_COUNT then PlugOne(lanes[l][s], element, laneElementStart, s, column, v) else lanes[l][s]
  {
    var l := column % LANE_COUNT;
    lanes[l := seq(SUM_COUNT, s requires 0 <= s < SUM_COUNT => PlugOne(lanes[l][s], element, laneElementStart, s, column, v))]
  }

  ghost predicate SameEnds(lanes: SumLanes, lanes': SumLanes) {
    && SumShape(lanes) && SumShape(lanes')
    && forall l, s :: 0 <= l < LANE_COUNT && 0 <= s < SUM_COUNT ==> lanes'[l][s].elementEnd == lanes[l][s].elementEnd
  }

  // A recovered packet inside the window is plugged into the sums of its lane.
  lemma PlugAllHolds(lanes: SumLanes, h: seq<Gf>, held: set<nat>, sumBase: nat, base: nat, p: nat)
    requires AllHold(lanes, h, held, sumBase, base) && base % LANE_COUNT == 0
    requires base <= p < |h| && p !in held
    ensures var c := Wrap(p);
            var next := PlugAll(lanes, p - base, LaneStart(base, sumBase, c % LANE_COUNT), c, h[p]);
            AllHold(next, h, held + {p}, sumBase, base) && SameEnds(lanes, next)
  {
    hide Holds, Add, Mul, ColumnPower, Wrap;
    var c := Wrap(p);
    WrapLane(p);
    var next := PlugAll(lanes, p - base, LaneStart(base, sumBase, c % LANE_COUNT), c, h[p]);
    forall l, s | 0 <= l < LANE_COUNT && 0 <= s < SUM_COUNT
      ensures Holds(next[l][s], h, held + {p}, l, s, sumBase, base)
    {
      PlugRange(base, sumBase, p, p % LANE_COUNT);
      PlugHolds(lanes[l][s], h, held, l, s, sumBase, base, p, next[l][s]);
    }
  }

  // A recovered packet that no sum can have passed over changes nothing.
  lemma SkipHolds(lanes: SumLanes, h: seq<Gf>, held: set<nat>, sumBase: nat, base: nat, p: nat)
    requires AllHold(lanes, h, held, sumBase, base) && AllEmpty(lanes, sumBase, base)
    requires base % LANE_COUNT == 0 && base <= sumBase && p < |h| && p !in held
    ensures AllHold(lanes, h, held + {p}, sumBase, base)
  {
    hide Holds;
    forall l, s | 0 <= l < LANE_COUNT && 0 <= s < SUM_COUNT
      ensures Holds(lanes[l][s], h, held + {p}, l, s, sumBase, base)
    {
      if p % LANE_COUNT == l && sumBase <= p {
        EmptyRange(base, sumBase, p, l);
      }
      PlugHolds(lanes[l][s], h, held, l, s, sumBase, base, p, lanes[l][s]);
    }
  }

  lemma ArrivalHolds(lanes: SumLanes, h: seq<Gf>, held: set<nat>, received: set<nat>, sumBase: nat, base: nat, a: nat)
    requires AllHold(lanes, h, held, sumBase, base) && AllWhole(lanes, received, sumBase, base)
    requires a < |h| && a !in received && a !in held
    ensures AllHold(lanes, h, held + {a}, sumBase, base)
    ensures AllWhole(lanes, received + {a}, sumBase, base)
  {
    hide Holds;
    forall l, s | 0 <= l < LANE_COUNT && 0 <= s < SUM_COUNT
      ensures Holds(lanes[l][s], h, held + {a}, l, s, sumBase, base)
    {
      PlugHolds(lanes[l][s], h, held, l, s, sumBase, base, a, lanes[l][s]);
    }
  }

  // Plugging an element no sum has passed over leaves the sums alone.
  lemma PlugEmpty(lanes: SumLanes, sumBase: nat, base: nat, element: nat, column: nat, v: Gf)
    requires AllEmpty(lanes, sumBase, base)
    ensures PlugAll(lanes, element, LaneStart(base, sumBase, column % LANE_COUNT), column, v) == lanes
  {
    var l := column % LANE_COUNT;
    var next := PlugAll(lanes, element, LaneStart(base, sumBase, l), column, v);
    assert next[l] == lanes[l];
    assert next == lanes;
  }

  class DecoderPacketWindow {
    var Count: nat
    var ColumnStart: nat
    var Originals: seq<Option<Gf>>
    var Sums: SumLanes
    var SumColumnStart: nat
    var SumColumnCount: nat
    var RecoveredColumns: seq<nat>
    var NextExpectedElement: nat
    var MatrixColumns: seq<nat>    // matrix column of each lost packet in the matrix

    ghost var History: seq<Gf>     // the packets the encoder sent
    ghost var Base: nat            // the packet at the front of the window
    ghost var Received: set<nat>   // packets received or recovered so far
    ghost var SumBase: nat         // the packet the sums start at
    ghost var Live: bool           // the sums are kept up to date
    ghost var LastBase: nat        // front of the window when they last were
    ghost var Pending: seq<nat>    // the packets of RecoveredColumns

    ghost predicate WindowValid()
      reads this`Count, this`ColumnStart, this`Originals, this`History, this`Base, this`Received
    {
      && |Originals| == Count && Count <= COLUMN_PERIOD / 2
      && Base % LANE_COUNT == 0 && ColumnStart == Wrap(Base) && Base + Count <= |History|
      && (forall a: nat :: a < Base ==> a in Received)
      && forall e :: 0 <= e < Count ==>
           if Base + e in Received then Originals[e] == Some(History[Base + e]) else Originals[e] == None
    }

    // Everything before the next expected element was received.
    ghost predicate NextBound()
      reads this`NextExpectedElement, this`Count, this`MatrixColumns, this`Base, this`Received
    {
      && NextExpectedElement <= Count && |MatrixColumns| == Count && (Count == 0 ==> Base == 0)
      && (forall a: nat :: a < Base + NextExpectedElement ==> a in Received)
      && (forall a :: a in Received ==> a < Base + Count)
    }

    // ... and it is the first that was not.
    ghost predicate NextValid()
      reads this`NextExpectedElement, this`Count, this`MatrixColumns, this`Base, this`Received
    {
      NextBound() && (NextExpectedElement < Count ==> Base + NextExpectedElement !in Received)
    }

    // The sums in use have passed over received packets only.
    ghost predicate SumsWhole()
      reads this`Live, this`Sums, this`Received, this`SumBase, this`Base
    {
      Live ==> AllWhole(Sums, Received, SumBase, Base)
    }

    ghost predicate PendingValid()
      reads this`Pending, this`RecoveredColumns, this`Received, this`Base, this`Count
    {
      && |Pending| == |RecoveredColumns|
      && (forall i :: 0 <= i < |Pending| ==> RecoveredColumns[i] == Wrap(Pending[i]) && Pending[i] in Received && Pending[i] < Base + Count)
      && (forall i, j :: 0 <= i < j < |Pending| ==> Pending[i] != Pending[j])
    }

    // The sums in use hold everything received but what is still to be plugged.
    // Once stopped they hold anything when their start has left the window.
    ghost predicate SumsValid()
      reads this`Sums, this`SumColumnStart, this`SumColumnCount, this`History, this`Base, this`Received, this`SumBase, this`Live, this`LastBase, this`Pending
    {
      && SumShape(Sums) && SumColumnStart == Wrap(SumBase)
      && (SumColumnCount > 0 ==> Live)
      && if Live then
           && AllHold(Sums, History, Received - Elements(Pending), SumBase, Base)
           && EndsBefore(Sums, SumBase + SumColumnCount, Base)
           && forall p :: p in Pending ==> Base <= p
         else
           Base <= SumBase ==> AllStale(Sums, SumBase, Base, LastBase)
    }

    // The sums in use started no longer ago than a row can reach back.
    ghost predicate StartValid()
      reads this`Base, this`Count, this`SumBase, this`Live
    {
      SumBase <= Base + Count && (Live ==> Base <= SumBase + MAX_PACKETS)
    }

    ghost predicate Valid()
      reads this`Count, this`ColumnStart, this`Originals, this`History, this`Base, this`Received, this`Pending, this`RecoveredColumns
      reads this`Sums, this`SumColumnStart, this`SumColumnCount, this`SumBase, this`Live, this`LastBase
    {
      WindowValid() && PendingValid() && SumsValid() && StartValid()
    }

    function ColumnToElement(column: nat): nat
      reads this
    {
      SubtractColumns(column, ColumnStart)
    }

    constructor (ghost history: seq<Gf>)
      ensures Valid() && NextValid() && SumsWhole()
      ensures Count == 0 && Base == 0 && SumColumnStart == SumColumnCount == 0 && History == history && Received == {}
    {
      NextExpectedElement, MatrixColumns := 0, [];
      Count, ColumnStart, SumColumnStart, SumColumnCount := 0, 0, 0, 0;
      Originals, RecoveredColumns := [], [];
      Sums := seq(LANE_COUNT, l => seq(SUM_COUNT, s => DecoderSum(0, 0, false, ZERO)));
      History, Base, Received, SumBase, Live, LastBase, Pending := history, 0, {}, 0, false, 0, [];
    }

    // The next element at or after the given one that was lost; Count if none.
    method FindNextLostElement(elementStart: nat) returns (element: nat)
      requires WindowValid()
      ensures elementStart >= Count ==> element == Count
      ensures elementStart < Count ==> elementStart <= element <= Count
      ensures forall a :: Base + elementStart <= a < Base + element ==> a in Received
      ensures element < Count ==> Base + element !in Received
    {
      hide Wrap;
      if elementStart >= Count {
        return Count;
      }
      element := elementStart;
      while element < Count && Originals[element].Some?
        invariant elementStart <= element <= Count
        invariant forall a :: Base + elementStart <= a < Base + element ==> a in Received
      {
        element := element + 1;
      }
    }

    // The next element at or after the given one that was received; Count if none.
    method FindNextGotElement(elementStart: nat) returns (element: nat)
      requires WindowValid()
      ensures elementStart >= Count ==> element == Count
      ensures elementStart < Count ==> elementStart <= element <= Count
      ensures forall a :: Base + elementStart <= a < Base + element ==> a !in Received
      ensures element < Count ==> Base + element in Received
    {
      hide Wrap;
      if elementStart >= Count {
        return Count;
      }
      element := elementStart;
      while element < Count && Originals[element].None?
        invariant elementStart <= element <= Count
        invariant forall a :: Base + elementStart <= a < Base + element ==> a !in Received
      {
        element := element + 1;
      }
    }

    // The number of lost packets from one element up to another.
    method RangeLostPackets(elementStart: nat, elementEnd: nat) returns (lostCount: nat)
      requires WindowValid() && elementEnd <= Count
      ensures elementStart >= elementEnd ==> lostCount == 0
      ensures elementStart < elementEnd ==> |Lost(Received, Base + elementEnd)| == |Lost(Received, Base + elementStart)| + lostCount
    {
      hide Wrap;
      lostCount := 0;
      if elementStart >= elementEnd {
        return;
      }
      for element := elementStart to elementEnd
        invariant |Lost(Received, Base + element)| == |Lost(Received, Base + elementStart)| + lostCount
      {
        if Originals[element].None? {
          lostCount := lostCount + 1;
        }
      }
    }

    // Moves the next expected element past elements known to be received.
    method IterateNextExpectedElement(elementStart: nat)
      requires WindowValid() && NextBound() && NextExpectedElement < elementStart <= Count
      requires forall a :: Base + NextExpectedElement <= a < Base + elementStart ==> a in Received
      modifies this`NextExpectedElement
      ensures NextValid() && NextExpectedElement >= elementStart
    {
      hide Wrap;
      NextExpectedElement := FindNextLostElement(elementStart);
    }

    // Makes sure the window covers the given end element.
    method GrowWindow(windowElementEnd: nat)
      requires WindowValid() && NextBound()
      requires windowElementEnd <= COLUMN_PERIOD / 2 && Base + windowElementEnd <= |History|
      modifies this`Count, this`Originals, this`MatrixColumns
      ensures WindowValid() && NextBound() && Count == if windowElementEnd > old(Count) then windowElementEnd else old(Count)
      ensures MatrixColumns[..old(Count)] == old(MatrixColumns)
      ensures old(NextValid()) ==> NextValid()
      ensures old(PendingValid()) ==> PendingValid()
      ensures old(StartValid()) ==> StartValid()
    {
      hide Wrap;
      if windowElementEnd > Count {
        Originals := Originals + seq(windowElementEnd - Count, _ => None);
        MatrixColumns := MatrixColumns + seq(windowElementEnd - Count, _ => 0);
        Count := windowElementEnd;
      }
      assert MatrixColumns[..old(Count)] == old(MatrixColumns);
    }

    // Takes an original packet into the window; false if it is there already. A packet
    // half a period or more past the front seems to lie before it, and is dropped.
    method AddOriginal(packetNum: nat, value: Gf, ghost a: nat) returns (added: bool, element: nat)
      requires Valid() && NextValid() && SumsWhole()
      requires packetNum == Wrap(a) && a < |History| && value == History[a]
      requires a < Base + COLUMN_PERIOD && Base <= a + COLUMN_PERIOD / 2
      modifies this`Count, this`Originals, this`MatrixColumns, this`NextExpectedElement, this`Received
      ensures Valid() && NextValid() && SumsWhole() && Count >= old(Count)
      ensures Base + Count == old(Base + Count) || Base + Count == a + 1
      ensures added <==> a !in old(Received) && a < Base + COLUMN_PERIOD / 2
      ensures Received == if a < Base + COLUMN_PERIOD / 2 then old(Received) + {a} else old(Received)
      ensures added ==> element == a - Base && old(NextExpectedElement) <= element < Count
      ensures added && element > old(NextExpectedElement) ==> NextExpectedElement == old(NextExpectedElement)
      ensures added && element == old(NextExpectedElement) ==> NextExpectedElement > element
      ensures !added ==> NextExpectedElement == old(NextExpectedElement) && Count == old(Count)
      ensures !added ==> Received == old(Received) && MatrixColumns == old(MatrixColumns)
      ensures MatrixColumns[..old(Count)] == old(MatrixColumns)
    {
      hide AllHold, AllStale, EndsBefore, AllWhole, Wrap, PendingValid;
      element := ColumnToElement(packetNum);
      if a < Base {
        SubtractBehind(a, Base);
      } else {
        SubtractWrapped(a, Base);
      }
      if IsColumnDeltaNegative(element) {
        assert a < Base ==> Received == Received + {a};
        assert MatrixColumns[..Count] == MatrixColumns;
        return false, element;
      }
      GrowWindow(element + 1);
      if Originals[element].Some? {
        assert Received == Received + {a};
        return false, element;
      }
      Store(element, value);
      if element == NextExpectedElement {
        IterateNextExpectedElement(element + 1);
      }
      added := true;
    }

    method Store(element: nat, value: Gf)
      requires Valid() && NextBound() && SumsWhole() && element < Count
      requires Base + element !in Received && value == History[Base + element]
      modifies this`Originals, this`Received
      ensures Valid() && NextBound() && SumsWhole() && Received == old(Received) + {Base + element}
    {
      hide AllHold, AllStale, EndsBefore, AllWhole, Wrap;
      SumsSkip(Base + element);
      Originals := Originals[element := Some(value)];
      Received := Received + {Base + element};
    }

    // A packet the sums have not passed over may arrive without touching them.
    lemma SumsSkip(a: nat)
      requires Valid() && SumsWhole() && a !in Received && a < |History|
      ensures Live ==> AllHold(Sums, History, Received + {a} - Elements(Pending), SumBase, Base)
      ensures Live ==> AllWhole(Sums, Received + {a}, SumBase, Base)
    {
      hide Wrap, Holds, EndsBefore, AllStale;
      if Live {
        var held := Received - Elements(Pending);
        assert Received + {a} - Elements(Pending) == held + {a};
        ArrivalHolds(Sums, History, held, Received, SumBase, Base, a);
      }
    }

    // Sum every lane from the given element on.
    method ResetSums(elementStart: nat)
      requires WindowValid() && PendingValid()
      modifies this`Sums, this`RecoveredColumns, this`Pending, this`SumBase
      ensures SumBase == Base + elementStart && Pending == [] && RecoveredColumns == []
      ensures AllHold(Sums, History, Received, SumBase, Base) && AllEmpty(Sums, SumBase, Base)
      ensures AllWhole(Sums, Received, SumBase, Base)
    {
      hide AllHold, AllEmpty, AllWhole, Wrap;
      Sums := ResetAll(elementStart);
      RecoveredColumns, Pending, SumBase := [], [], Base + elementStart;
      ResetHolds(History, Received, Base, elementStart);
      EmptyWhole(Sums, Received, SumBase, Base);
    }

    // What is to be plugged into the sums is in the window, unless they are empty.
    ghost predicate Pluggable()
      reads this`Sums, this`History, this`Received, this`Pending, this`SumBase, this`Base
    {
      && AllHold(Sums, History, Received - Elements(Pending), SumBase, Base)
      && ((forall p :: p in Pending ==> Base <= p) || (Base <= SumBase && AllEmpty(Sums, SumBase, Base)))
    }

    // Adds the packets recovered meanwhile to the sums that passed over them.
    method PlugSumHoles(elementStart: nat)
      requires WindowValid() && PendingValid() && SumShape(Sums)
      requires elementStart == if SumBase < Base then 0 else SumBase - Base
      modifies this`Sums, this`RecoveredColumns, this`Pending
      ensures Pending == [] && RecoveredColumns == [] && SumShape(Sums) && (old(Pending) == [] ==> Sums == old(Sums))
      ensures old(Pluggable()) ==> AllHold(Sums, History, Received, SumBase, Base) && SameEnds(old(Sums), Sums)
    {
      hide Holds, AllEmpty, Wrap, PlugAll;
      var count := |RecoveredColumns|;
      ghost var pending, sound, empty := Pending, Pluggable(), Base <= SumBase && AllEmpty(Sums, SumBase, Base);
      assert Pending[0..] == Pending;
      for i := 0 to count
        invariant RecoveredColumns == old(RecoveredColumns) && Pending == pending && SumShape(Sums) && (i == 0 ==> Sums == old(Sums))
        invariant sound ==> AllHold(Sums, History, Received - Elements(Pending[i..]), SumBase, Base) && SameEnds(old(Sums), Sums)
        invariant sound && empty ==> AllEmpty(Sums, SumBase, Base)
      {
        PlugColumn(i, elementStart, sound, empty);
      }
      assert Pending[count..] == [];
      assert Received - Elements([]) == Received;
      RecoveredColumns, Pending := [], [];
    }

    method PlugColumn(i: nat, elementStart: nat, ghost sound: bool, ghost empty: bool)
      requires WindowValid() && PendingValid() && SumShape(Sums) && i < |RecoveredColumns|
      requires elementStart == if SumBase < Base then 0 else SumBase - Base
      requires sound ==> AllHold(Sums, History, Received - Elements(Pending[i..]), SumBase, Base)
      requires sound ==> if empty then Base <= SumBase && AllEmpty(Sums, SumBase, Base) else forall p :: p in Pending ==> Base <= p
      modifies this`Sums
      ensures SumShape(Sums)
      ensures sound ==> AllHold(Sums, History, Received - Elements(Pending[i + 1..]), SumBase, Base) && SameEnds(old(Sums), Sums)
      ensures sound && empty ==> AllEmpty(Sums, SumBase, Base)
    {
      hide Holds, AllEmpty, AllHold, Wrap, PlugAll, PendingValid;
      if sound {
        PlugColumnHolds(i, elementStart, empty);
      }
      var column := RecoveredColumns[i];
      var element := ColumnToElement(column);
      if element < Count {
        var laneElementStart := GetNextLaneElement(elementStart, column % LANE_COUNT);
        Sums := PlugAll(Sums, element, laneElementStart, column, if Originals[element].Some? then Originals[element].value else ZERO);
      }
    }

    lemma PlugColumnHolds(i: nat, elementStart: nat, empty: bool)
      requires WindowValid() && PendingValid() && i < |RecoveredColumns|
      requires elementStart == if SumBase < Base then 0 else SumBase - Base
      requires AllHold(Sums, History, Received - Elements(Pending[i..]), SumBase, Base)
      requires if empty then Base <= SumBase && AllEmpty(Sums, SumBase, Base) else forall p :: p in Pending ==> Base <= p
      ensures var column, element := RecoveredColumns[i], ColumnToElement(RecoveredColumns[i]);
              var next := if element >= Count then Sums
                          else PlugAll(Sums, element, GetNextLaneElement(elementStart, column % LANE_COUNT), column,
                                  if Originals[element].Some? then Originals[element].value else ZERO);
              && AllHold(next, History, Received - Elements(Pending[i + 1..]), SumBase, Base) && SameEnds(Sums, next)
              && (empty ==> AllEmpty(next, SumBase, Base))
    {
      hide Holds, AllEmpty, Wrap, PlugAll;
      var p, held := Pending[i], Received - Elements(Pending[i..]);
      PendingStep(Pending, i, Received);
      var column, element := RecoveredColumns[i], ColumnToElement(RecoveredColumns[i]);
      if empty {
        SkipHolds(Sums, History, held, SumBase, Base, p);
        if element < Count {
          PlugEmpty(Sums, SumBase, Base, element, column, if Originals[element].Some? then Originals[element].value else ZERO);
        }
      } else {
        assert p in Pending;
        SubtractWrapped(p, Base);
        PlugAllHolds(Sums, History, held, SumBase, Base, p);
      }
    }

    // Gets all sums ready to go on from where they are. What stopped sums held of
    // packets that have left the window is not what they should hold.
    method StartSums(elementStart: nat)
      requires Valid()
      requires elementStart == if SumBase < Base then 0 else SumBase - Base
      modifies this`Sums, this`RecoveredColumns, this`Pending
      ensures Pending == [] && RecoveredColumns == [] && SumShape(Sums)
      ensures old(Pending) == [] ==> SumShape(old(Sums)) && Sums == StartAll(old(Sums), elementStart)
      ensures Live || Base <= SumBase ==> AllHold(Sums, History, Received, SumBase, Base) && EndsBefore(Sums, SumBase + SumColumnCount, Base)
      ensures (Live || Base <= SumBase) && old(SumsWhole()) ==> AllWhole(Sums, Received, SumBase, Base)
    {
      hide Holds, Wrap, AllStale, AllWhole;
      ghost var whole := SumsWhole();
      if Live {
        if whole {
          StartWhole(Sums, Received, SumBase, Base);
        }
        StartHolds(Sums, History, Received - Elements(Pending), SumBase, Base);
        StartEnds(Sums, SumBase, Base, SumBase + SumColumnCount);
      } else if Base <= SumBase {
        StaleStartHolds(Sums, History, Received - Elements(Pending), SumBase, Base, LastBase);
        EmptyEnds(StartAll(Sums, elementStart), SumBase, Base, SumBase);
        EmptyWhole(StartAll(Sums, elementStart), Received, SumBase, Base);
      }
      Sums := StartAll(Sums, elementStart);
      ghost var started := Sums;
      PlugSumHoles(elementStart);
      if Live || Base <= SumBase {
        SameEndsBefore(started, Sums, SumBase + SumColumnCount, Base);
        if whole {
          SameEndsWhole(started, Sums, Received, SumBase, Base);
        }
      }
    }

    // The start of a Siamese row that is to be summed up, told apart by its column
    // number from that of stopped sums.
    ghost predicate RowStart(m: Metadata, start: nat)
      reads this`Base, this`Count, this`SumBase, this`Live
    {
      && ValidMetadata(m) && Wrap(start) == m.columnStart && Base < start + m.sumCount <= Base + Count
      && (!Live && Base <= start ==> ToldApart(start, SumBase))
    }

    // A row that starts where the column number says the sums do starts there, unless
    // its start is gone and the sums are stopped.
    lemma StartIsSums(m: Metadata, start: nat)
      requires Valid() && RowStart(m, start) && m.columnStart == SumColumnStart
      ensures if Live || Base <= start then start == SumBase else SumBase < Base
    {
      hide AllHold, EndsBefore, AllStale;
      if Live || Base <= SumBase {
        SameStart(start, SumBase);
      }
    }

    // Stopped sums that have the column number of a row's start in the window are
    // empty once started exactly if none is taken for one that starts there and has run
    // on; and so they are if the row starts where they did.
    lemma StoppedStart(start: nat)
      requires Valid() && !Live && Base <= start && Wrap(start) == SumColumnStart
      ensures AllEmpty(StartAll(Sums, start - Base), start, Base) <==>
              forall l, s :: 0 <= l < LANE_COUNT && 0 <= s < SUM_COUNT && Sums[l][s].started && Sums[l][s].elementStart == LaneStart(Base, start, l) ==>
                Sums[l][s].elementEnd == LaneStart(Base, start, l)
      ensures ToldApart(start, SumBase) ==> AllEmpty(StartAll(Sums, start - Base), start, Base)
    {
      hide AllHold, EndsBefore, AllEmpty, Wrap;
      StartsAfresh(Sums, start, Base);
      if start == SumBase {
        StaleStartHolds(Sums, History, Received, SumBase, Base, LastBase);
      }
    }

    // Makes the running sums those of a Siamese row whose range starts at packet
    // `start`. False if they would have to restart where data is gone. Stopped sums
    // are started without being of use to any row if the data is gone.
    method PrepareSums(m: Metadata, ghost start: nat) returns (ok: bool)
      requires Valid() && RowStart(m, start)
      modifies this`Sums, this`RecoveredColumns, this`Pending, this`SumBase, this`SumColumnStart, this`SumColumnCount, this`Live
      ensures ok <==> Base <= start || (m.columnStart == old(SumColumnStart) && old(SumColumnCount) <= m.sumCount)
      ensures Valid() && (old(SumsWhole()) ==> SumsWhole())
      ensures ok ==> SumColumnCount <= m.sumCount && Pending == [] && RecoveredColumns == []
      ensures ok ==> if old(Live) || Base <= start then Live && SumBase == start else !Live && SumBase == old(SumBase) < Base
      ensures ok && Live ==> AllHold(Sums, History, Received, SumBase, Base)
      ensures !ok ==> Live == old(Live) && SumBase == old(SumBase)
    {
      hide Holds, AllHold, EndsBefore, AllStale, AllWhole, Wrap, ToldApart, WindowValid;
      var sumElementStart := ColumnToElement(m.columnStart);
      ElementOf(start);
      if m.columnStart != SumColumnStart || m.sumCount < SumColumnCount {
        if sumElementStart >= Count {
          return false;
        }
        ResetSums(sumElementStart);
        EmptyEnds(Sums, SumBase, Base, SumBase + m.sumCount);
        SumColumnStart, SumColumnCount, Live := m.columnStart, m.sumCount, true;
      } else {
        StartIsSums(m, start);
        if sumElementStart >= Count {
          sumElementStart := 0;
        }
        StartSums(sumElementStart);
        Live := Live || Base <= start;
      }
      NonePending(Received);
      if Live {
        HoldsAt(Sums, History, Received, SumBase, Base, 0, 0);
      }
      ok := true;
    }

    // Prepares the sums for eliminating a row; from now on they may run up to
    // the end of the row's range.
    method UseSums(m: Metadata, ghost start: nat) returns (ok: bool)
      requires Valid() && RowStart(m, start) && (!Live ==> Base <= start)
      modifies this`Sums, this`RecoveredColumns, this`Pending, this`SumBase, this`SumColumnStart, this`SumColumnCount, this`Live
      ensures ok <==> Base <= start || (start == old(SumBase) && old(SumColumnCount) <= m.sumCount)
      ensures Valid()
      ensures ok ==> Live && SumBase == start && SumColumnCount == m.sumCount && Pending == [] && RecoveredColumns == []
      ensures ok ==> AllHold(Sums, History, Received, SumBase, Base)
    {
      hide Holds, AllHold, EndsBefore, AllStale, Wrap, ToldApart;
      if m.columnStart == SumColumnStart {
        StartIsSums(m, start);
      }
      ok := PrepareSums(m, start);
      if ok {
        LaterEnd(Sums, SumBase + SumColumnCount, SumBase + m.sumCount, Base);
        SumColumnCount := m.sumCount;
      }
    }

    // Takes one sum up to elementEnd, skipping lost packets, and returns it.
    method GetSum(lane: nat, s: nat, elementEnd: nat) returns (sum: Gf)
      requires WindowValid() && SumShape(Sums) && lane < LANE_COUNT && s < SUM_COUNT && elementEnd <= Count
      modifies this`Sums
      ensures SumShape(Sums) && Sums == old(Sums)[lane := old(Sums)[lane][s := Sums[lane][s]]]
      ensures old(Holds(Sums[lane][s], History, Received, lane, s, SumBase, Base)) ==> Holds(Sums[lane][s], History, Received, lane, s, SumBase, Base)
      ensures var r := Sums[lane][s];
              && sum == Value(r) && r.elementStart == old(Sums)[lane][s].elementStart
              && elementEnd <= r.elementEnd && (r.elementEnd < elementEnd + LANE_COUNT || r == old(Sums)[lane][s])
    {
      hide Add, Mul, ColumnPower, Wrap, Holds;
      var r := Sums[lane][s];
      ghost var sound := Holds(r, History, Received, lane, s, SumBase, Base);
      while r.elementEnd < elementEnd
        invariant Sums == old(Sums) && r.elementStart == Sums[lane][s].elementStart
        invariant sound ==> Holds(r, History, Received, lane, s, SumBase, Base)
        invariant r.elementEnd < elementEnd + LANE_COUNT || r == Sums[lane][s]
        decreases elementEnd - r.elementEnd
      {
        var element := r.elementEnd;
        var next := r.(elementEnd := element + LANE_COUNT);
        if Originals[element].Some? {
          var column := AddColumns(element, ColumnStart);
          AddWrapped(element, Base);
          next := next.(started := true, sum := Add(Value(r), Mul(ColumnPower(column, s), Originals[element].value)));
        }
        if sound {
          StepHolds(r, History, Received, lane, s, SumBase, Base, next);
        }
        r := next;
      }
      Sums := Sums[lane := Sums[lane][s := r]];
      sum := Value(r);
    }

    // A sum that ran less than a lane past elementEnd is the sum up to there.
    lemma SumIs(r: DecoderSum, lane: nat, s: nat, elementEnd: nat)
      requires WindowValid() && Holds(r, History, Received, lane, s, SumBase, Base)
      requires elementEnd <= r.elementEnd < elementEnd + LANE_COUNT
      ensures SumBase <= Base + elementEnd ==> Value(r) == LaneSum(Mask(History, Received), lane, s, SumBase, Base + elementEnd)
    {
      hide LaneSum, Wrap, Mask;
      if SumBase <= Base + elementEnd {
        forall a | Base + elementEnd <= a < Base + r.elementEnd ensures a % LANE_COUNT != lane {
          LaneOf(Base, a - Base);
          JustBefore(a - Base, r.elementEnd);
        }
        LaneSumSkip(Mask(History, Received), lane, s, SumBase, Base + elementEnd, Base + r.elementEnd);
      }
    }

    // Adds the running sums of one lane the opcode asks for.
    method AddLane(lane: nat, row: nat, base: nat, elementEnd: nat, acc: Gf) returns (r: Gf)
      requires WindowValid() && elementEnd <= Count && SumBase <= Base + elementEnd
      requires AllHold(Sums, History, Received, SumBase, Base) && EndsBefore(Sums, Base + elementEnd, Base)
      requires lane < LANE_COUNT && row < ROW_PERIOD && (base == 0 || base == 3)
      modifies this`Sums
      ensures AllHold(Sums, History, Received, SumBase, Base) && EndsBefore(Sums, Base + elementEnd, Base)
      ensures r == Add(acc, LaneHalf(Mask(History, Received), row, lane, base, SumBase, Base + elementEnd))
    {
      hide Add, OpcodeBit, LaneSum, AllHold, EndsBefore, Holds, LaneHalf, Wrap;
      ghost var h, end := Mask(History, Received), Base + elementEnd;
      r := acc;
      AddZero(acc);
      for s := 0 to SUM_COUNT
        invariant AllHold(Sums, History, Received, SumBase, Base) && EndsBefore(Sums, end, Base)
        invariant r == Add(acc, PartialHalf(h, row, lane, base, SumBase, end, s))
      {
        ghost var p := PartialHalf(h, row, lane, base, SumBase, end, s);
        if OpcodeBit(lane, row, base + s) {
          ghost var was := Sums;
          HoldsAt(was, History, Received, SumBase, Base, lane, s);
          var sum := GetSum(lane, s, elementEnd);
          AllHoldUpdate(was, History, Received, SumBase, Base, lane, s, Sums[lane][s]);
          EndsUpdate(was, end, Base, lane, s, Sums[lane][s]);
          SumIs(Sums[lane][s], lane, s, elementEnd);
          r := Add(r, sum);
          AddAssoc(acc, p, sum);
        } else {
          AddZero(p);
        }
      }
      PartialHalfAll(h, row, lane, base, SumBase, end);
    }

    // Cancels all received packets of a Siamese row's range from its payload.
    method EliminateSiamese(raw: Draws, m: Metadata, elementEnd: nat, payload: Gf, ghost start: nat) returns (ok: bool, r: Gf)
      requires Valid() && ValidMetadata(m) && m.sumCount > CAUCHY_THRESHOLD && Wrap(start) == m.columnStart
      requires Base + elementEnd == start + m.sumCount && m.ldpcCount <= elementEnd <= Count
      requires Near(m, start, Base, SumBase, Live)
      modifies this`Sums, this`RecoveredColumns, this`Pending, this`SumBase, this`SumColumnStart, this`SumColumnCount, this`Live
      ensures Valid()
      ensures ok <==> Base <= start || (start == old(SumBase) && old(SumColumnCount) <= m.sumCount)
      ensures ok ==> Live && SumBase == start && SumColumnCount == m.sumCount && Pending == []
      ensures ok ==> r == Add(payload, Dot(CoefficientRow(raw, m), Mask(History, Received)[start..start + m.sumCount]))
    {
      hide Add, Mul, AllHold, EndsBefore, AllStale, AllLanes, LightSum, GetRowValue, Dot, CoefficientRow, Wrap;
      r := payload;
      ok := UseSums(m, start);
      if !ok {
        return;
      }
      NonePending(Received);
      var direct, product := EliminateDense(m.row, elementEnd);
      ghost var g := Mask(History, Received)[Base + elementEnd - m.ldpcCount..Base + elementEnd];
      direct, product := EliminateLight(raw, m, elementEnd, direct, product, g);
      SiameseRow(Mask(History, Received), raw, m, start, Base + elementEnd);
      r := Add(payload, Add(direct, Mul(GetRowValue(m.row), product)));
    }

    // The dense columns, from the running sums of all lanes.
    method EliminateDense(row: nat, elementEnd: nat) returns (direct: Gf, product: Gf)
      requires WindowValid() && elementEnd <= Count && SumBase <= Base + elementEnd && row < ROW_PERIOD
      requires AllHold(Sums, History, Received, SumBase, Base) && EndsBefore(Sums, Base + elementEnd, Base)
      modifies this`Sums
      ensures SumShape(Sums)
      ensures AllHold(Sums, History, Received, SumBase, Base) && EndsBefore(Sums, Base + elementEnd, Base)
      ensures direct == AllLanes(Mask(History, Received), row, LANE_COUNT, 0, SumBase, Base + elementEnd)
      ensures product == AllLanes(Mask(History, Received), row, LANE_COUNT, 3, SumBase, Base + elementEnd)
    {
      hide Add, Holds, EndsBefore, LaneHalf, Wrap;
      ghost var h, end := Mask(History, Received), Base + elementEnd;
      direct, product := ZERO, ZERO;
      for lane := 0 to LANE_COUNT
        invariant AllHold(Sums, History, Received, SumBase, Base) && EndsBefore(Sums, end, Base)
        invariant direct == AllLanes(h, row, lane, 0, SumBase, end)
        invariant product == AllLanes(h, row, lane, 3, SumBase, end)
      {
        direct := AddLane(lane, row, 0, elementEnd, direct);
        product := AddLane(lane, row, 3, elementEnd, product);
      }
    }

    // The light columns: the pairs of packets drawn, unless lost.
    method EliminateLight(raw: Draws, m: Metadata, elementEnd: nat, direct: Gf, product: Gf, ghost g: Row) returns (p: Gf, w: Gf)
      requires WindowValid() && 0 < m.ldpcCount <= elementEnd <= Count && |g| == m.ldpcCount
      requires g == Mask(History, Received)[Base + elementEnd - m.ldpcCount..Base + elementEnd]
      ensures p == Add(direct, LightSum(g, raw, m.row, PairCount(m.ldpcCount), 0))
      ensures w == Add(product, LightSum(g, raw, m.row, PairCount(m.ldpcCount), 1))
    {
      hide *;
      var elementStart, count := elementEnd - m.ldpcCount, m.ldpcCount;
      p, w := direct, product;
      LightNone(g, raw, m.row);
      AddZero(direct);
      AddZero(product);
      for i := 0 to PairCount(count)
        invariant p == Add(direct, LightSum(g, raw, m.row, i, 0))
        invariant w == Add(product, LightSum(g, raw, m.row, i, 1))
      {
        LightNext(g, raw, m.row, i);
        AddAssoc(direct, LightSum(g, raw, m.row, i, 0), g[Draw(raw, m.row, count, 2 * i)]);
        AddAssoc(product, LightSum(g, raw, m.row, i, 1), g[Draw(raw, m.row, count, 2 * i + 1)]);
        p := AddDrawn(elementStart, count, Draw(raw, m.row, count, 2 * i), p, g);
        w := AddDrawn(elementStart, count, Draw(raw, m.row, count, 2 * i + 1), w, g);
      }
    }

    // Adds a drawn packet of the light range unless it is lost.
    method AddDrawn(elementStart: nat, count: nat, d: nat, acc: Gf, ghost g: Row) returns (r: Gf)
      requires WindowValid() && d < count && elementStart + count <= Count
      requires g == Mask(History, Received)[Base + elementStart..Base + elementStart + count]
      ensures r == Add(acc, g[d])
    {
      hide Add, Wrap;
      AddZero(acc);
      var element := elementStart + d;
      r := if Originals[element].Some? then Add(acc, Originals[element].value) else acc;
    }

    // Files a recovered packet; true if it was the next expected element.
    method MarkRecovered(column: nat, value: Gf, ghost a: nat) returns (isNext: bool)
      requires WindowValid() && NextBound() && PendingValid() && SumsValid() && StartValid()
      requires a !in Received && Base <= a < Base + Count && value == History[a] && column == Wrap(a)
      modifies this`Originals, this`RecoveredColumns, this`Received, this`Pending
      ensures Valid() && NextBound() && Received == old(Received) + {a}
      ensures old(SumsWhole()) ==> SumsWhole()
      ensures isNext <==> a == Base + NextExpectedElement
    {
      hide Wrap, Holds, AllStale, EndsBefore;
      var element := ColumnToElement(column);
      SubtractWrapped(a, Base);
      Originals := Originals[element := Some(value)];
      RecoveredColumns := RecoveredColumns + [column];
      PendingSnoc(Received, Pending, a);
      Received, Pending := Received + {a}, Pending + [a];
      isNext := element == NextExpectedElement;
    }

    // After a solve the sums have passed over nothing that is still lost.
    lemma WholeAgain()
      requires WindowValid() && SumsValid() && Live
      requires forall a: nat :: a < SumBase + SumColumnCount ==> a in Received
      ensures SumsWhole()
    {
      hide LaneSum, Wrap;
      forall l, s, a | 0 <= l < LANE_COUNT && 0 <= s < SUM_COUNT && SumBase <= a < Base + Sums[l][s].elementEnd && a % LANE_COUNT == l
        ensures a in Received
      {
        assert Holds(Sums[l][s], History, Received - Elements(Pending), l, s, SumBase, Base);
        LaneOf(Base, Sums[l][s].elementEnd);
        LastOfLane(a, Base + Sums[l][s].elementEnd);
      }
    }

    // Takes all sums past the point of removal and counts from there.
    method RollUpSums(removed: nat)
      requires WindowValid() && SumShape(Sums) && removed <= Count && removed % LANE_COUNT == 0
      requires Live ==> AllHold(Sums, History, Received, SumBase, Base) && EndsBefore(Sums, SumBase + SumColumnCount, Base)
      requires Live ==> AllWhole(Sums, Received, SumBase, Base)
      requires forall a: nat :: a < Base + removed ==> a in Received
      modifies this`Sums
      ensures SumShape(Sums)
      ensures Live ==> AllHold(Sums, History, Received, SumBase, Base + removed) && AllWhole(Sums, Received, SumBase, Base + removed)
      ensures Live ==> EndsBefore(Sums, SumBase + SumColumnCount, Base + removed)
    {
      hide Running, Holds, Wrap, LaneStart;
      ghost var sumEnd := SumBase + SumColumnCount;
      if Live {
        RollStart(Sums, History, Received, SumBase, Base, removed, sumEnd);
      }
      for lane := 0 to LANE_COUNT
        invariant SumShape(Sums) && (Live ==> RollingUp(Sums, History, Received, SumBase, Base, removed, sumEnd, lane, 0))
      {
        for s := 0 to SUM_COUNT
          invariant SumShape(Sums) && (Live ==> RollingUp(Sums, History, Received, SumBase, Base, removed, sumEnd, lane, s))
        {
          RollUpOne(lane, s, removed, sumEnd);
        }
        if Live {
          RollLane(Sums, History, Received, SumBase, Base, removed, sumEnd, lane);
        }
      }
      if Live {
        RollDone(Sums, History, Received, SumBase, Base, removed, sumEnd);
      }
    }

    method RollUpOne(lane: nat, s: nat, removed: nat, ghost sumEnd: nat)
      requires WindowValid() && SumShape(Sums) && removed <= Count && removed % LANE_COUNT == 0 && lane < LANE_COUNT && s < SUM_COUNT
      requires Live ==> RollingUp(Sums, History, Received, SumBase, Base, removed, sumEnd, lane, s)
      requires forall a: nat :: a < Base + removed ==> a in Received
      modifies this`Sums
      ensures SumShape(Sums) && (Live ==> RollingUp(Sums, History, Received, SumBase, Base, removed, sumEnd, lane, s + 1))
    {
      hide Holds, NoHoles, LaneStart;
      ghost var was := Sums;
      assert Live ==> Running(was[lane][s], History, Received, lane, s, SumBase, Base, sumEnd);
      var sum := GetSum(lane, s, removed);
      var r := Sums[lane][s];
      Sums := Sums[lane := Sums[lane][s := Rebased(r, lane, removed)]];
      if Live {
        RebasedRunning(r, History, Received, lane, s, SumBase, Base, removed, sumEnd);
        RolledOne(was, History, Received, SumBase, Base, removed, sumEnd, lane, s, Rebased(r, lane, removed));
      }
      assert Sums[lane] == was[lane][s := Rebased(r, lane, removed)];
      assert Sums == was[lane := was[lane][s := Rebased(r, lane, removed)]];
    }

    // Moves the front of the window past the removed elements.
    method DropFront(removed: nat)
      requires WindowValid() && NextValid() && removed < Count && removed <= NextExpectedElement && removed % LANE_COUNT == 0
      modifies this`Originals, this`MatrixColumns, this`Count, this`ColumnStart, this`NextExpectedElement, this`Base
      ensures WindowValid() && NextValid() && Base == old(Base) + removed && Count == old(Count) - removed
      ensures NextExpectedElement == old(NextExpectedElement) - removed && MatrixColumns == old(MatrixColumns)[removed..]
    {
      hide Wrap;
      DroppedFront(removed);
      Originals, MatrixColumns := Originals[removed..], MatrixColumns[removed..];
      Count := Count - removed;
      AddWrapped(removed, Base);
      ColumnStart := AddColumns(removed, ColumnStart);
      NextExpectedElement := NextExpectedElement - removed;
      Base := Base + removed;
    }

    lemma DroppedFront(removed: nat)
      requires WindowValid() && removed < Count
      ensures forall e :: 0 <= e < Count - removed ==>
                Originals[removed..][e] == if Base + removed + e in Received then Some(History[Base + removed + e]) else None
    {
      hide Wrap;
      forall e | 0 <= e < Count - removed
        ensures Originals[removed..][e] == if Base + removed + e in Received then Some(History[Base + removed + e]) else None
      {
        assert Originals[removed..][e] == Originals[removed + e];
      }
    }

    // The first element some listed recovery packet still needs, and the sums
    // that should be running. False if a sum's start has already been dropped.
    method ScanRecoveries(recs: seq<Recovery>) returns (ok: bool, firstKept: nat, seenSum: bool, target: Metadata, ghost t: nat)
      requires WindowValid() && |recs| > 0
      requires forall i :: 0 <= i < |recs| ==> Fits(recs[i], Base, Count, NextExpectedElement)
      ensures ok ==> forall i :: 0 <= i < |recs| ==> Spared(recs[i], Base, firstKept, target)
      ensures ok && seenSum ==> FirstSiamese(recs, t) && target == recs[t].metadata
      ensures ok && !seenSum ==> forall i :: 0 <= i < |recs| ==> !IsSiamese(recs[i])
      ensures ok <==> StartsKept(recs, Base)
      ensures ok ==> SomeNeeds(recs, Base, firstKept + 1)
    {
      hide Wrap, WindowValid, NeedsFront;
      firstKept, seenSum, target, t := recs[0].elementStart, false, Metadata(0, 0, 0, 0), 0;
      ghost var tight: nat := 0;
      NeedsStart(recs, 0, Base);
      for i := 0 to |recs|
        invariant firstKept <= recs[0].elementStart
        invariant NeedsFront(recs, tight, Base, firstKept + 1)
        invariant forall k :: 0 <= k < i ==> Spared(recs[k], Base, firstKept, target)
        invariant if seenSum then FirstSiamese(recs, t) && target == recs[t].metadata else forall k :: 0 <= k < i ==> !IsSiamese(recs[k])
        invariant seenSum ==> t < i && forall k :: t < k < i && Dropped(recs[k], Base) ==> Continues(recs[k].metadata, target)
      {
        var m := recs[i].metadata;
        if m.sumCount > CAUCHY_THRESHOLD {
          if !seenSum {
            target, seenSum, t := m, true, i;
          } else if m.columnStart != target.columnStart || m.sumCount < target.sumCount {
            var firstSumElement := ColumnToElement(m.columnStart);
            FitsElement(recs[i]);
            if firstSumElement >= Count {
              ok := false;
              return;
            }
            NeedsSum(recs, i, Base, t);
            tight := if firstKept > firstSumElement then i else tight;
            firstKept := if firstKept > firstSumElement then firstSumElement else firstKept;
          }
        }
        NeedsStart(recs, i, Base);
        tight := if firstKept > recs[i].elementStart then i else tight;
        firstKept := if firstKept > recs[i].elementStart then recs[i].elementStart else firstKept;
      }
      OneNeeds(recs, tight, Base, firstKept + 1);
      ok := true;
    }

    lemma FitsElement(r: Recovery)
      requires WindowValid() && Fits(r, Base, Count, NextExpectedElement)
      ensures var e := ColumnToElement(r.metadata.columnStart);
              if Base <= StartOf(r, Base) then e == StartOf(r, Base) - Base else e >= Count
    {
      hide Wrap, WindowValid;
      ElementOf(StartOf(r, Base));
    }

    ghost predicate SumsNear(m: Metadata, start: int)
      reads this`SumBase, this`Live, this`Base
    {
      Near(m, start, Base, SumBase, Live)
    }

    // What RemoveElements needs to know of the last recovery packet if the list
    // is empty: the window has all its data and has not moved far since.
    ghost predicate LastFits(last: Metadata, lastStart: nat)
      reads this`Base, this`NextExpectedElement, this`SumBase, this`Live
    {
      && Kept(last, lastStart) && LastApart(last, lastStart, Base, SumBase, Live)
      && lastStart + last.sumCount <= Base + NextExpectedElement && Base <= lastStart + last.sumCount + COLUMN_PERIOD / 2
    }

    ghost predicate RowsFit(recs: seq<Recovery>)
      reads this`Base, this`Count, this`NextExpectedElement, this`SumBase, this`Live
    {
      forall i :: 0 <= i < |recs| ==>
        Fits(recs[i], Base, Count, NextExpectedElement) && SumsNear(recs[i].metadata, StartOf(recs[i], Base))
    }

    // The row's light range is in the window, and its sum can be formed: it starts
    // in the window or carries on from the running sums.
    ghost predicate Usable(m: Metadata, start: int)
      reads this`Base, this`Live, this`SumBase, this`SumColumnCount
    {
      Servable(m, start, Base, Live, SumBase, SumColumnCount)
    }

    ghost function RunningSums(): SumsAt
      reads this`SumBase, this`SumColumnCount
    {
      SumsAt(SumBase, SumColumnCount)
    }

    // The rows are in order once they count from the new front.
    ghost predicate OrderMoved(recs: seq<Recovery>, removed: nat)
      reads this`Base, this`SumBase, this`SumColumnCount
    {
      (forall r :: r in recs ==> removed <= r.elementStart && removed <= r.elementEnd) ==> Orderly(Moved(recs, removed), Base, RunningSums())
    }

    // Drops elements no recovery packet needs any more from the front, rolling
    // the sums up past them. False if a sum's start has already been dropped.
    method RemoveElements(recs: seq<Recovery>, last: Metadata, ghost lastStart: nat) returns (ok: bool, removed: nat)
      requires Valid() && NextValid() && SumsWhole() && RowsFit(recs)
      requires recs == [] ==> LastFits(last, lastStart)
      modifies this
      ensures Received == old(Received) && History == old(History)
      ensures ok ==> Valid() && NextValid() && SumsWhole() && Base == old(Base) + removed && removed <= old(Count)
      ensures ok ==> Count == old(Count) - removed && NextExpectedElement == old(NextExpectedElement) - removed
      ensures ok ==> MatrixColumns == old(MatrixColumns)[removed..]
      ensures ok ==> forall i :: 0 <= i < |recs| ==> removed <= recs[i].elementStart
      ensures ok && removed > 0 ==> forall i :: 0 <= i < |recs| ==> Usable(recs[i].metadata, StartOf(recs[i], old(Base)))
      ensures ok && removed == 0 ==> Live == old(Live) && SumBase == old(SumBase)
      ensures ok && removed > 0 && recs != [] ==> (Live <==> exists i :: 0 <= i < |recs| && IsSiamese(recs[i]))
      ensures ok && removed > 0 && recs == [] ==> Base <= lastStart + last.sumCount
      ensures ok && !Live ==> SumBase == old(SumBase)
      ensures recs != [] && Sorted(recs) && old(Orderly(recs, Base, RunningSums())) ==> ok && OrderMoved(recs, removed)
      ensures ok && recs != [] && old(NextExpectedElement) >= DECODER_REMOVE_THRESHOLD ==>
                SomeNeeds(recs, old(Base), removed + DECODER_REMOVE_THRESHOLD)
      ensures recs == [] ==> (ok <==> !old(LastClips(last, lastStart)))
      ensures recs == [] && ok ==> removed == old(LastRemoves(last, lastStart))
      ensures recs == [] && ok && last.sumCount <= CAUCHY_THRESHOLD ==>
                SumColumnStart == old(SumColumnStart) && (SumColumnCount == 0 || SumColumnCount == old(SumColumnCount))
    {
      hide *;
      BeforeScan(recs);
      assert MatrixColumns[0..] == MatrixColumns;
      ghost var base, count, next, sums := Base, Count, NextExpectedElement, RunningSums();
      ghost var ordered := recs != [] && Sorted(recs) && Orderly(recs, Base, RunningSums());
      if ordered {
        OrderKept(recs);
      }
      ClipsIs(last, lastStart);
      RemovesIs(last, lastStart);
      if NextExpectedElement < DECODER_REMOVE_THRESHOLD {
        return true, 0;
      }
      var firstKept, seenSum, target;
      ghost var t, start;
      ok, firstKept, seenSum, target, t, start := ScanPackets(recs, last, lastStart);
      if ok && recs != [] {
        FrontNeeded(recs, firstKept);
      }
      if !ok || firstKept < DECODER_REMOVE_THRESHOLD {
        return ok, 0;
      }
      removed := WholeSubwindows(firstKept);
      ok := MoveFront(removed, seenSum, target, start);
      if ok && recs != [] {
        AllUsable(recs, base, count, next, firstKept, removed, t, seenSum, target);
        if ordered {
          OrderRemoved(recs, base, count, next, sums, firstKept, removed, t, seenSum);
        }
      }
    }

    lemma FrontNeeded(recs: seq<Recovery>, firstKept: nat)
      requires SomeNeeds(recs, Base, firstKept + 1)
      ensures var removed := if firstKept < DECODER_REMOVE_THRESHOLD then 0 else WholeSubwindows(firstKept);
              SomeNeeds(recs, Base, removed + DECODER_REMOVE_THRESHOLD)
    {
      hide SomeNeeds;
      NeedsMore(recs, Base, firstKept + 1, (if firstKept < DECODER_REMOVE_THRESHOLD then 0 else WholeSubwindows(firstKept)) + DECODER_REMOVE_THRESHOLD);
    }

    // The first element still needed and the sums to be kept running, from the list or,
    // if that is empty, the last packet received in order.
    method ScanPackets(recs: seq<Recovery>, last: Metadata, ghost lastStart: nat)
      returns (ok: bool, firstKept: nat, seenSum: bool, target: Metadata, ghost t: nat, ghost start: nat)
      requires Valid() && NextValid() && RowsFit(recs) && NextExpectedElement >= DECODER_REMOVE_THRESHOLD
      requires recs == [] ==> LastFits(last, lastStart)
      ensures ok && firstKept > 0 ==> firstKept <= NextExpectedElement && firstKept < Count
      ensures ok && firstKept > 0 && seenSum ==> RowStart(target, start) && Base + firstKept <= start + target.sumCount
      ensures ok && firstKept > 0 && recs == [] ==> Base + firstKept <= lastStart + last.sumCount
      ensures recs == [] ==> (ok <==> Base + last.ldpcCount <= lastStart + last.sumCount < Base + COLUMN_PERIOD / 2)
      ensures recs == [] && ok ==>
                && Base + firstKept == lastStart + last.sumCount - last.ldpcCount && target == last && start == lastStart
                && (seenSum <==> last.sumCount > CAUCHY_THRESHOLD)
      ensures ok && recs != [] ==> SomeNeeds(recs, Base, firstKept + 1)
      ensures ok && recs != [] ==> forall i :: 0 <= i < |recs| ==> Spared(recs[i], Base, firstKept, target)
      ensures ok && recs != [] && seenSum ==> FirstSiamese(recs, t) && t < |recs| && target == recs[t].metadata && start == StartOf(recs[t], Base)
      ensures ok && recs != [] && seenSum ==> Live || Base <= start
      ensures ok && recs != [] && !seenSum ==> forall i :: 0 <= i < |recs| ==> !IsSiamese(recs[i])
      ensures recs != [] && Sorted(recs) && Orderly(recs, Base, RunningSums()) ==>
                ok && (seenSum ==> Base <= start || (target.columnStart == SumColumnStart && SumColumnCount <= target.sumCount))
    {
      hide *;
      BeforeScan(recs);
      t, start := 0, lastStart;
      if recs == [] {
        ok, firstKept, seenSum, target := ScanLast(last, lastStart);
        if ok && firstKept > 0 {
          LastStarts(last, lastStart, firstKept);
        }
        return;
      }
      ok, firstKept, seenSum, target, t := ScanRecoveries(recs);
      if ok {
        ListStarts(recs, t, seenSum, firstKept, target);
        start := if seenSum then StartOf(recs[t], Base) else 0;
      }
      if Sorted(recs) && Orderly(recs, Base, RunningSums()) {
        OrderKept(recs);
        if seenSum {
          OrderStarts(recs, t, start);
        }
      }
    }

    // With the list empty, the last packet cannot say what to remove: its light range
    // is not in the window, or its sum would have to start where data is gone.
    ghost predicate LastClips(last: Metadata, lastStart: nat)
      reads this`Base, this`NextExpectedElement, this`SumColumnStart, this`SumColumnCount
    {
      var end := lastStart + last.sumCount;
      && NextExpectedElement >= DECODER_REMOVE_THRESHOLD
      && (end < Base + last.ldpcCount || end >= Base + COLUMN_PERIOD / 2
          || (last.sumCount > CAUCHY_THRESHOLD && Base + last.ldpcCount + DECODER_REMOVE_THRESHOLD <= end && lastStart < Base
              && (last.columnStart != SumColumnStart || last.sumCount < SumColumnCount)))
    }

    // The elements it lets go then.
    ghost function LastRemoves(last: Metadata, lastStart: nat): nat
      reads this`Base, this`NextExpectedElement
    {
      var light := lastStart + last.sumCount - last.ldpcCount - Base;
      if NextExpectedElement < DECODER_REMOVE_THRESHOLD || light < DECODER_REMOVE_THRESHOLD then 0 else WholeSubwindows(light)
    }

    lemma RemovesIs(last: Metadata, lastStart: nat)
      ensures var light := lastStart + last.sumCount - last.ldpcCount - Base;
              LastRemoves(last, lastStart) ==
                if NextExpectedElement < DECODER_REMOVE_THRESHOLD || light < DECODER_REMOVE_THRESHOLD then 0 else WholeSubwindows(light)
    {}

    lemma ClipsIs(last: Metadata, lastStart: nat)
      ensures var end := lastStart + last.sumCount;
              LastClips(last, lastStart) <==>
                && NextExpectedElement >= DECODER_REMOVE_THRESHOLD
                && (!(Base + last.ldpcCount <= end < Base + COLUMN_PERIOD / 2)
                    || (last.sumCount > CAUCHY_THRESHOLD && end - last.ldpcCount - Base >= DECODER_REMOVE_THRESHOLD
                        && !(Base <= lastStart || (last.columnStart == SumColumnStart && SumColumnCount <= last.sumCount))))
    {}

    lemma BeforeScan(recs: seq<Recovery>)
      requires Valid() && NextValid() && RowsFit(recs)
      ensures WindowValid() && NextExpectedElement <= Count <= COLUMN_PERIOD / 2 && |MatrixColumns| == Count
      ensures forall i :: 0 <= i < |recs| ==> Fits(recs[i], Base, Count, NextExpectedElement)
    {
      hide AllHold, EndsBefore, AllStale, Wrap, Near, Fits;
    }

    lemma AllUsable(recs: seq<Recovery>, base: nat, count: nat, next: nat, firstKept: nat, removed: nat, t: nat, seenSum: bool, target: Metadata)
      requires forall i :: 0 <= i < |recs| ==> Fits(recs[i], base, count, next) && Spared(recs[i], base, firstKept, target)
      requires if seenSum then FirstSiamese(recs, t) && target == recs[t].metadata else forall i :: 0 <= i < |recs| ==> !IsSiamese(recs[i])
      requires count <= COLUMN_PERIOD / 2 && removed <= firstKept && Base == base + removed
      requires seenSum ==> Live && SumBase == StartOf(recs[t], base) && SumColumnCount <= target.sumCount
      ensures forall i :: 0 <= i < |recs| ==> removed <= recs[i].elementStart && Usable(recs[i].metadata, StartOf(recs[i], base))
      ensures seenSum <==> exists i :: 0 <= i < |recs| && IsSiamese(recs[i])
    {
      hide Wrap, ValidMetadata, Fits;
      forall i | 0 <= i < |recs|
        ensures removed <= recs[i].elementStart && Usable(recs[i].metadata, StartOf(recs[i], base))
      {
        if seenSum {
          SparedServable(recs[i], recs[t], base, count, next, firstKept, removed, target, SumColumnCount);
        }
      }
    }

    lemma OrderKept(recs: seq<Recovery>)
      requires RowsFit(recs) && Sorted(recs) && Orderly(recs, Base, RunningSums())
      ensures StartsKept(recs, Base) && OrderMoved(recs, 0)
    {
      hide Wrap, ValidMetadata, Grouped, Served;
      InOrderKept(recs, Base, Count, NextExpectedElement, RunningSums());
      assert Moved(recs, 0) == recs by {
        assert forall r :: r in recs ==> r.(elementStart := r.elementStart - 0, elementEnd := r.elementEnd - 0) == r;
      }
    }

    lemma OrderStarts(recs: seq<Recovery>, t: nat, start: nat)
      requires Valid() && RowsFit(recs) && Sorted(recs) && Orderly(recs, Base, RunningSums()) && FirstSiamese(recs, t) && start == StartOf(recs[t], Base)
      ensures Base <= start || (recs[t].metadata.columnStart == SumColumnStart && SumColumnCount <= recs[t].metadata.sumCount)
    {
      hide Wrap, ValidMetadata, Grouped, Served, AllHold, EndsBefore, AllStale;
      InOrderKept(recs, Base, Count, NextExpectedElement, RunningSums());
      assert Fits(recs[t], Base, Count, NextExpectedElement);
    }

    lemma OrderRemoved(recs: seq<Recovery>, base: nat, count: nat, next: nat, sums: SumsAt, firstKept: nat, removed: nat, t: nat, seenSum: bool)
      requires Orderly(recs, base, sums) && Sorted(recs) && forall i :: 0 <= i < |recs| ==> Fits(recs[i], base, count, next)
      requires count <= COLUMN_PERIOD / 2 && removed <= firstKept && Base == base + removed
      requires if seenSum
               then FirstSiamese(recs, t) && (forall i :: 0 <= i < |recs| ==> Spared(recs[i], base, firstKept, recs[t].metadata))
                    && SumBase == StartOf(recs[t], base) && SumColumnCount <= recs[t].metadata.sumCount
               else forall i :: 0 <= i < |recs| ==> !IsSiamese(recs[i])
      ensures OrderMoved(recs, removed)
    {
      hide Wrap, ValidMetadata, Fits, Sorted, Spared, Orderly;
      if (forall r :: r in recs ==> removed <= r.elementStart && removed <= r.elementEnd) && !seenSum {
        NoSumsOrderly(Moved(recs, removed), Base, RunningSums());
      } else if seenSum {
        RemovedInOrder(recs, base, count, next, sums, firstKept, removed, t, RunningSums());
      }
    }

    lemma LastStarts(last: Metadata, lastStart: nat, firstKept: nat)
      requires LastFits(last, lastStart) && ValidMetadata(last) && Base + firstKept == lastStart + last.sumCount - last.ldpcCount && firstKept > 0
      requires NextExpectedElement <= Count
      ensures last.sumCount > CAUCHY_THRESHOLD ==> RowStart(last, lastStart)
      ensures firstKept < NextExpectedElement
      ensures Base + firstKept <= lastStart + last.sumCount
    {
      hide Wrap;
    }

    lemma ListStarts(recs: seq<Recovery>, t: nat, seenSum: bool, firstKept: nat, target: Metadata)
      requires RowsFit(recs) && recs != [] && forall i :: 0 <= i < |recs| ==> Spared(recs[i], Base, firstKept, target)
      requires seenSum ==> FirstSiamese(recs, t) && target == recs[t].metadata
      ensures firstKept <= NextExpectedElement < Count && 0 <= StartOf(recs[0], Base)
      ensures seenSum ==>
                && t < |recs| && 0 <= StartOf(recs[t], Base) && target == recs[t].metadata && (Live || Base <= StartOf(recs[t], Base))
                && RowStart(target, StartOf(recs[t], Base)) && Base + firstKept <= StartOf(recs[t], Base) + target.sumCount
    {
      hide Wrap, ValidMetadata;
      assert Spared(recs[0], Base, firstKept, target) && Fits(recs[0], Base, Count, NextExpectedElement);
    }

    // Gets the sums past the first elements, then drops these.
    method MoveFront(removed: nat, seenSum: bool, target: Metadata, ghost start: nat) returns (ok: bool)
      requires Valid() && NextValid() && SumsWhole()
      requires 0 < removed < Count && removed <= NextExpectedElement && removed % LANE_COUNT == 0
      requires seenSum ==> RowStart(target, start) && Base + removed <= start + target.sumCount
      modifies this
      ensures Received == old(Received) && History == old(History)
      ensures ok ==> Valid() && NextValid() && SumsWhole() && Base == old(Base) + removed
      ensures ok ==> Count == old(Count) - removed && NextExpectedElement == old(NextExpectedElement) - removed
      ensures ok ==> MatrixColumns == old(MatrixColumns)[removed..]
      ensures ok ==> Live == (seenSum && (old(Live) || old(Base) <= start)) && SumBase == if Live then start else old(SumBase)
      ensures ok && seenSum ==> SumColumnCount <= target.sumCount
      ensures ok && !seenSum ==> SumColumnStart == old(SumColumnStart) && SumColumnCount == 0
      ensures ok <==> seenSum ==> old(Base) <= start || (target.columnStart == old(SumColumnStart) && old(SumColumnCount) <= target.sumCount)
    {
      hide Wrap, AllHold, AllStale, EndsBefore, AllWhole, ToldApart;
      ok := MoveSums(removed, seenSum, target, start);
      if ok {
        DropFront(removed);
      }
    }

    // The sums are ready for a window that starts `removed` elements later.
    ghost predicate SumsMoved(removed: nat)
      reads this`Sums, this`SumColumnStart, this`SumColumnCount, this`History, this`Base, this`Received, this`SumBase, this`Live, this`LastBase, this`Pending
    {
      && SumShape(Sums) && SumColumnStart == Wrap(SumBase) && (SumColumnCount > 0 ==> Live)
      && if Live then
           && AllHold(Sums, History, Received - Elements(Pending), SumBase, Base + removed)
           && EndsBefore(Sums, SumBase + SumColumnCount, Base + removed)
           && AllWhole(Sums, Received, SumBase, Base + removed) && Pending == []
         else
           Base + removed <= SumBase ==> AllStale(Sums, SumBase, Base + removed, LastBase)
    }

    // Rolls the sums up past the removed elements, or stops running them.
    method MoveSums(removed: nat, seenSum: bool, target: Metadata, ghost start: nat) returns (ok: bool)
      requires Valid() && NextValid() && SumsWhole()
      requires 0 < removed < Count && removed <= NextExpectedElement && removed % LANE_COUNT == 0
      requires seenSum ==> RowStart(target, start)
      modifies this`Sums, this`RecoveredColumns, this`Pending, this`SumBase, this`SumColumnStart, this`SumColumnCount, this`Live, this`LastBase
      ensures PendingValid() && (ok ==> SumsMoved(removed))
      ensures ok ==> Live == (seenSum && (old(Live) || Base <= start)) && SumBase == if Live then start else old(SumBase)
      ensures ok && seenSum ==> SumColumnCount <= target.sumCount
      ensures ok && !seenSum ==> SumColumnStart == old(SumColumnStart) && SumColumnCount == 0
      ensures ok <==> seenSum ==> Base <= start || (target.columnStart == old(SumColumnStart) && old(SumColumnCount) <= target.sumCount)
    {
      hide Wrap, Holds, AllStale, NoHoles, EndsBefore, ToldApart;
      ok := true;
      if seenSum {
        ok := PrepareSums(target, start);
        if !ok {
          return;
        }
        RollUpSums(removed);
        NonePending(Received);
      } else {
        StopSums(removed);
      }
    }

    // No listed row uses sums: stop running them.
    method StopSums(removed: nat)
      requires SumsValid() && Base % LANE_COUNT == 0 && removed > 0
      modifies this`SumColumnCount, this`Live, this`LastBase
      ensures SumColumnCount == 0 && !Live && SumShape(Sums)
      ensures Base + removed <= SumBase ==> AllStale(Sums, SumBase, Base + removed, LastBase)
    {
      hide Holds, EndsBefore, Wrap;
      LastBase := if Live then Base else LastBase;
      SumColumnCount, Live := 0, false;
    }

    // With the list empty, the last recovery packet received in order decides.
    method ScanLast(last: Metadata, ghost lastStart: nat) returns (ok: bool, firstKept: nat, seenSum: bool, target: Metadata)
      requires WindowValid() && NextValid() && LastFits(last, lastStart)
      ensures ok ==> firstKept <= NextExpectedElement && target == last && Base + firstKept == lastStart + last.sumCount - last.ldpcCount
      ensures ok && firstKept > 0 ==> firstKept < NextExpectedElement && ValidMetadata(last)
      ensures ok <==> Base + last.ldpcCount <= lastStart + last.sumCount < Base + COLUMN_PERIOD / 2
      ensures ok ==> (seenSum <==> last.sumCount > CAUCHY_THRESHOLD)
    {
      hide Wrap, WindowValid;
      var elementEnd := ColumnToElement(AddColumns(last.columnStart, last.sumCount));
      AddWrapped(last.sumCount, lastStart);
      LastElement(lastStart + last.sumCount);
      target, firstKept := last, 0;
      seenSum := last.sumCount > CAUCHY_THRESHOLD;
      ok := !IsColumnDeltaNegative(elementEnd) && elementEnd >= last.ldpcCount;
      if ok {
        firstKept := elementEnd - last.ldpcCount;
      }
    }

    lemma LastElement(end: nat)
      requires WindowValid() && Base <= end + COLUMN_PERIOD / 2 && end <= Base + Count
      ensures var e := ColumnToElement(Wrap(end)); if Base <= end then e == end - Base else IsColumnDeltaNegative(e)
    {
      hide Wrap;
      if Base <= end {
        SubtractWrapped(end, Base);
      } else {
        SubtractBehind(end, Base);
      }
    }

    lemma ElementOf(start: nat)
      requires WindowValid() && start < Base + Count && Base <= start + COLUMN_PERIOD / 2
      ensures var e := ColumnToElement(Wrap(start)); if Base <= start then e == start - Base else e >= Count
    {
      hide Wrap;
      if Base <= start {
        SubtractWrapped(start, Base);
      } else {
        SubtractBehind(start, Base);
      }
    }
  }

  lemma HoldsAt(lanes: SumLanes, h: seq<Gf>, held: set<nat>, sumBase: nat, base: nat, lane: nat, s: nat)
    requires AllHold(lanes, h, held, sumBase, base) && lane < LANE_COUNT && s < SUM_COUNT
    ensures SumShape(lanes) && Holds(lanes[lane][s], h, held, lane, s, sumBase, base)
  {}

  lemma AllHoldUpdate(lanes: SumLanes, h: seq<Gf>, held: set<nat>, sumBase: nat, base: nat, lane: nat, s: nat, r: DecoderSum)
    requires AllHold(lanes, h, held, sumBase, base) && lane < LANE_COUNT && s < SUM_COUNT
    requires Holds(r, h, held, lane, s, sumBase, base) && r.elementStart == lanes[lane][s].elementStart
    ensures AllHold(lanes[lane := lanes[lane][s := r]], h, held, sumBase, base)
  {
    hide Holds;
  }

  lemma EndsUpdate(lanes: SumLanes, sumEnd: nat, base: nat, lane: nat, s: nat, r: DecoderSum)
    requires EndsBefore(lanes, sumEnd, base) && base <= sumEnd && lane < LANE_COUNT && s < SUM_COUNT
    requires base + r.elementEnd < sumEnd + LANE_COUNT || r == lanes[lane][s]
    ensures EndsBefore(lanes[lane := lanes[lane][s := r]], sumEnd, base)
    ensures base + r.elementEnd < sumEnd + LANE_COUNT
  {}

  lemma RollStart(lanes: SumLanes, h: seq<Gf>, held: set<nat>, sumBase: nat, base: nat, removed: nat, sumEnd: nat)
    requires AllHold(lanes, h, held, sumBase, base) && EndsBefore(lanes, sumEnd, base) && AllWhole(lanes, held, sumBase, base)
    ensures RollingUp(lanes, h, held, sumBase, base, removed, sumEnd, 0, 0)
  {
    hide Holds, NoHoles, LaneStart;
  }

  lemma RollDone(lanes: SumLanes, h: seq<Gf>, held: set<nat>, sumBase: nat, base: nat, removed: nat, sumEnd: nat)
    requires RollingUp(lanes, h, held, sumBase, base, removed, sumEnd, LANE_COUNT, 0)
    ensures AllHold(lanes, h, held, sumBase, base + removed) && EndsBefore(lanes, sumEnd, base + removed)
    ensures AllWhole(lanes, held, sumBase, base + removed)
  {
    hide Holds, NoHoles, LaneStart;
    forall l, s | 0 <= l < LANE_COUNT && 0 <= s < SUM_COUNT
      ensures Running(lanes[l][s], h, held, l, s, sumBase, base + removed, sumEnd)
    {}
  }

  lemma PendingSnoc(received: set<nat>, pending: seq<nat>, a: nat)
    requires a !in received
    ensures received + {a} - Elements(pending + [a]) == received - Elements(pending)
  {}

  lemma JustBefore(x: nat, e: nat)
    requires x < e < x + LANE_COUNT
    ensures x % LANE_COUNT != e % LANE_COUNT
  {}

  lemma NonePending(received: set<nat>)
    ensures received - Elements([]) == received
  {}

  lemma SameStart(a: nat, b: nat)
    requires -(COLUMN_PERIOD as int) < a - b < COLUMN_PERIOD
    ensures Wrap(a) == Wrap(b) ==> a == b
  {}

  lemma StartEnds(lanes: SumLanes, sumBase: nat, base: nat, sumEnd: nat)
    requires EndsBefore(lanes, sumEnd, base) && sumBase <= sumEnd
    ensures EndsBefore(StartAll(lanes, if sumBase < base then 0 else sumBase - base), sumEnd, base)
  {}

  lemma EmptyEnds(lanes: SumLanes, sumBase: nat, base: nat, sumEnd: nat)
    requires AllEmpty(lanes, sumBase, base) && sumBase <= sumEnd
    ensures EndsBefore(lanes, sumEnd, base)
  {}

  lemma SameEndsBefore(lanes: SumLanes, lanes': SumLanes, sumEnd: nat, base: nat)
    requires EndsBefore(lanes, sumEnd, base) && SameEnds(lanes, lanes')
    ensures EndsBefore(lanes', sumEnd, base)
  {}

  lemma SameEndsWhole(lanes: SumLanes, lanes': SumLanes, received: set<nat>, sumBase: nat, base: nat)
    requires AllWhole(lanes, received, sumBase, base) && SameEnds(lanes, lanes')
    ensures AllWhole(lanes', received, sumBase, base)
  {}

  lemma LaterEnd(lanes: SumLanes, sumEnd: nat, later: nat, base: nat)
    requires EndsBefore(lanes, sumEnd, base) && sumEnd <= later
    ensures EndsBefore(lanes, later, base)
  {}

  lemma PendingStep(pending: seq<nat>, i: nat, received: set<nat>)
    requires i < |pending| && pending[i] in received
    requires forall i, j :: 0 <= i < j < |pending| ==> pending[i] != pending[j]
    ensures pending[i] !in received - Elements(pending[i..])
    ensures received - Elements(pending[i..]) + {pending[i]} == received - Elements(pending[i + 1..])
  {
    assert pending[i..] == [pending[i]] + pending[i + 1..];
    assert pending[i] !in pending[i + 1..];
  }
}
