// The encoder's packet window, its running lane sums, and the recovery packets
// it makes. History and Base are the window's past: History[a] is the a-th
// packet ever added and element e of the window is packet Base + e.
module EncoderWindow {
  import opened Columns
  import opened Gf256
  import opened LinearAlgebra
  import opened Coefficients
  import opened LaneSums

  const SUBWINDOW_SIZE: nat := 64
  const REMOVE_THRESHOLD: nat := 128
  const SUM_RESET_THRESHOLD: nat := 32

  datatype RunningSum = RunningSum(nextElement: nat, sum: Gf)

  type Lanes = seq<seq<RunningSum>>

  ghost predicate LaneShape(lanes: Lanes) {
    |lanes| == LANE_COUNT && forall l :: 0 <= l < LANE_COUNT ==> |lanes[l]| == SUM_COUNT
  }

  // A running sum holds its lane from packet sumBase up to its next element.
  ghost predicate Direct(r: RunningSum, h: seq<Gf>, lane: nat, s: nat, sumBase: nat, base: nat, first: nat, count: nat) {
    && r.nextElement % LANE_COUNT == lane
    && first <= r.nextElement < count + LANE_COUNT && sumBase <= base + r.nextElement
    && r.sum == LaneSum(h, lane, s, sumBase, base + r.nextElement)
  }

  ghost predicate AllDirect(lanes: Lanes, h: seq<Gf>, sumBase: nat, base: nat, first: nat, count: nat) {
    && LaneShape(lanes)
    && forall l, s :: 0 <= l < LANE_COUNT && 0 <= s < SUM_COUNT ==> Direct(lanes[l][s], h, l, s, sumBase, base, first, count)
  }

  function GetNextLaneElement(element: nat, lane: nat): (next: nat)
    requires lane < LANE_COUNT
    ensures element <= next < element + LANE_COUNT && next % LANE_COUNT == lane
  {
    var next := element - element % LANE_COUNT + lane;
    if next < element then next + LANE_COUNT else next
  }

  lemma LaneOf(base: nat, e: nat)
    requires base % LANE_COUNT == 0
    ensures (base + e) % LANE_COUNT == e % LANE_COUNT
  {}

  // The next element of a lane is 8 further on.
  lemma LaneSumNext(h: seq<Gf>, lane: nat, s: nat, start: nat, a: nat)
    requires start <= a < |h| && a % LANE_COUNT == lane
    ensures LaneSum(h, lane, s, start, a + LANE_COUNT) == Add(LaneSum(h, lane, s, start, a), Mul(ColumnPower(Wrap(a), s), h[a]))
  {
    LaneSumSkip(h, lane, s, start, a + 1, a + LANE_COUNT);
  }

  // A sum that reached the end of the window holds its whole lane.
  lemma DirectIsFull(r: RunningSum, h: seq<Gf>, lane: nat, s: nat, sumBase: nat, base: nat, first: nat, count: nat)
    requires base % LANE_COUNT == 0 && base + count == |h| && sumBase <= |h|
    requires Direct(r, h, lane, s, sumBase, base, first, count) && count <= r.nextElement
    ensures r.sum == LaneSum(h, lane, s, sumBase, |h|)
  {
    LaneSumSkip(h, lane, s, sumBase, |h|, base + r.nextElement);
  }

  lemma LanesApart(e: nat, f: nat)
    requires e < f < e + LANE_COUNT
    ensures e % LANE_COUNT != f % LANE_COUNT
  {}

  // Adding a packet leaves every running sum direct.
  lemma DirectAppend(r: RunningSum, h: seq<Gf>, v: Gf, lane: nat, s: nat, sumBase: nat, base: nat, first: nat, count: nat)
    requires base % LANE_COUNT == 0 && base + count == |h|
    requires Direct(r, h, lane, s, sumBase, base, first, count)
    ensures Direct(r, h + [v], lane, s, sumBase, base, first, count + 1)
  {
    hide Add, Mul, LaneSum;
    LaneOf(base, count);
    if r.nextElement > count {
      LanesApart(count, r.nextElement);
    }
    LaneSumAppend(h, v, lane, s, sumBase, base + r.nextElement);
  }

  lemma AllDirectAppend(lanes: Lanes, h: seq<Gf>, v: Gf, sumBase: nat, base: nat, first: nat, count: nat)
    requires base % LANE_COUNT == 0 && base + count == |h|
    requires AllDirect(lanes, h, sumBase, base, first, count)
    ensures AllDirect(lanes, h + [v], sumBase, base, first, count + 1)
  {
    hide Direct;
    forall l, s | 0 <= l < LANE_COUNT && 0 <= s < SUM_COUNT
      ensures Direct(lanes[l][s], h + [v], l, s, sumBase, base, first, count + 1)
    {
      DirectAppend(lanes[l][s], h, v, l, s, sumBase, base, first, count);
    }
  }

  function FreshLanes(start: nat): (lanes: Lanes)
    ensures LaneShape(lanes)
    ensures forall l, s :: 0 <= l < LANE_COUNT && 0 <= s < SUM_COUNT ==>
              lanes[l][s] == RunningSum(GetNextLaneElement(start, l), ZERO)
  {
    seq(LANE_COUNT, l requires 0 <= l < LANE_COUNT => seq(SUM_COUNT, s => RunningSum(GetNextLaneElement(start, l), ZERO)))
  }

  lemma FreshIsDirect(h: seq<Gf>, base: nat, start: nat, first: nat, count: nat)
    requires base % LANE_COUNT == 0 && first <= start < count
    ensures AllDirect(FreshLanes(start), h, base + start, base, first, count)
  {
    var lanes := FreshLanes(start);
    hide Gf256.Add, Mul;
    forall l, s | 0 <= l < LANE_COUNT && 0 <= s < SUM_COUNT
      ensures Direct(lanes[l][s], h, l, s, base + start, base, first, count)
    {
      var next := GetNextLaneElement(start, l);
      forall a | base + start <= a < base + next ensures a % LANE_COUNT != l {
        LaneOf(base, a - base);
        NoLaneBetween(start, l, a - base);
      }
      LaneSumSkip(h, l, s, base + start, base + start, base + next);
    }
  }

  lemma NoLaneBetween(start: nat, lane: nat, e: nat)
    requires lane < LANE_COUNT && start <= e < GetNextLaneElement(start, lane)
    ensures e % LANE_COUNT != lane
  {}

  lemma NextOfLane(start: nat, lane: nat, e: nat)
    requires lane < LANE_COUNT && start <= e && e % LANE_COUNT == lane
    ensures GetNextLaneElement(start, lane) <= e
  {}

  // After removing elements from the front, counters are relative to the new front.
  lemma DirectShift(r: RunningSum, h: seq<Gf>, lane: nat, s: nat, sumBase: nat, base: nat, first: nat, count: nat, removed: nat)
    requires removed % LANE_COUNT == 0 && removed <= count && removed <= r.nextElement
    requires Direct(r, h, lane, s, sumBase, base, first, count)
    ensures Direct(RunningSum(r.nextElement - removed, r.sum), h, lane, s, sumBase, base + removed,
                   if first > removed then first - removed else 0, count - removed)
  {
    hide LaneSum;
  }

  // The sums before (lane, s) in the order of the loops already count from the
  // new front of the window, the others still from the old one.
  ghost predicate RolledUp(lanes: Lanes, h: seq<Gf>, sumBase: nat, base: nat, first: nat, count: nat, removed: nat, lane: nat, s: nat) {
    && LaneShape(lanes) && removed <= count
    && forall l, t :: 0 <= l < LANE_COUNT && 0 <= t < SUM_COUNT ==>
         if l < lane || (l == lane && t < s) then
           Direct(lanes[l][t], h, l, t, sumBase, base + removed, if first > removed then first - removed else 0, count - removed)
         else
           Direct(lanes[l][t], h, l, t, sumBase, base, first, count)
  }

  lemma RollOne(lanes: Lanes, h: seq<Gf>, sumBase: nat, base: nat, first: nat, count: nat, removed: nat, lane: nat, s: nat, r: RunningSum)
    requires RolledUp(lanes, h, sumBase, base, first, count, removed, lane, s)
    requires lane < LANE_COUNT && s < SUM_COUNT
    requires Direct(r, h, lane, s, sumBase, base + removed, if first > removed then first - removed else 0, count - removed)
    ensures RolledUp(lanes[lane := lanes[lane][s := r]], h, sumBase, base, first, count, removed, lane, s + 1)
  {
    hide Direct;
  }

  class EncoderPacketWindow {
    var NextColumn: nat
    var Count: nat
    var ColumnStart: nat
    var FirstUnremovedElement: nat
    var SumStartElement: nat
    var SumEndElement: nat
    var SumColumnStart: nat
    var SumErasedCount: nat
    var Originals: seq<Gf>
    var Running: Lanes

    ghost var History: seq<Gf>
    ghost var Base: nat
    ghost var First: nat      // elements before this one were never filled in
    ghost var SumBase: nat    // the packet the running sums start at

    predicate SumsActive()
      reads this
    {
      SumEndElement > SumStartElement
    }

    ghost predicate WindowValid()
      reads this
    {
      && NextColumn == Wrap(|History|)
      && Count <= MAX_PACKETS && |Originals| == Count
      && LaneShape(Running)
      && (Count > 0 ==>
            && Base + Count == |History| && Base % LANE_COUNT == 0 && ColumnStart == Wrap(Base)
            && First <= FirstUnremovedElement < Count
            && (forall e :: First <= e < Count ==> Originals[e] == History[Base + e]))
    }

    // The running sums start at packet SumBase, column SumColumnStart, and the
    // counters account for the columns erased since.
    ghost predicate SumsValid()
      reads this
    {
      && First <= SumStartElement <= FirstUnremovedElement && SumEndElement <= Count
      && SumColumnStart == Wrap(SumBase) && SumBase + SumErasedCount == Base + SumStartElement
      && AllDirect(Running, History, SumBase, Base, First, Count)
    }

    ghost predicate Valid()
      reads this
    {
      WindowValid() && (Count > 0 && SumsActive() ==> SumsValid())
    }

    // The first packet not acknowledged, or the next one to be added.
    ghost function FirstUnremoved(): nat
      reads this`Count, this`Base, this`FirstUnremovedElement, this`History
    {
      if Count > 0 then Base + FirstUnremovedElement else |History|
    }

    // An acknowledgement up to packet `next` that is not delayed by half the
    // column period.
    lemma RemovesUpTo(next: nat)
      requires Valid() && Count > 0 && next <= |History| && Base <= next + COLUMN_PERIOD / 2
      ensures var e := SubtractColumns(Wrap(next), ColumnStart);
              if next < Base then e >= Count && IsColumnDeltaNegative(e)
              else e == next - Base && !IsColumnDeltaNegative(e)
    {
      hide AllDirect, LaneShape, Wrap;
      if next < Base {
        SubtractBehind(next, Base);
      } else {
        SubtractWrapped(next, Base);
      }
    }

    constructor ()
      ensures Valid() && Count == 0 && History == [] && !SumsActive()
    {
      NextColumn, Count, ColumnStart, FirstUnremovedElement := 0, 0, 0, 0;
      SumStartElement, SumEndElement, SumColumnStart, SumErasedCount := 0, 0, 0, 0;
      Originals := [];
      Running := seq(LANE_COUNT, (l: nat) => seq(SUM_COUNT, s => RunningSum(l, ZERO)));
      History, Base, First, SumBase := [], 0, 0, 0;
    }

    function ColumnToElement(column: nat): nat
      reads this
    {
      SubtractColumns(column, ColumnStart)
    }

    function ElementToColumn(element: nat): nat
      reads this
    {
      AddColumns(element, ColumnStart)
    }

    function GetUnacknowledgedCount(): nat
      requires FirstUnremovedElement <= Count
      reads this
    {
      Count - FirstUnremovedElement
    }

    // Appends a packet; fails only when the window is full.
    method Add(value: Gf) returns (ok: bool, packetNum: nat)
      requires Valid()
      modifies this
      ensures Valid()
      ensures ok <==> old(Count) < MAX_PACKETS
      ensures ok ==> History == old(History) + [value] && packetNum == Wrap(|old(History)|) && Count > 0
      ensures ok && old(Count) > 0 ==> Base == old(Base) && FirstUnremovedElement == old(FirstUnremovedElement)
      ensures ok && old(Count) == 0 ==> Base + FirstUnremovedElement == |old(History)|
      ensures !ok ==> History == old(History) && Count == old(Count)
      ensures FirstUnremoved() == old(FirstUnremoved())
    {
      hide AllDirect, LaneShape, Wrap;
      packetNum := NextColumn;
      if Count >= MAX_PACKETS {
        return false, packetNum;
      }
      AddWrapped(1, |History|);
      if Count > 0 {
        if SumsActive() {
          AllDirectAppend(Running, History, value, SumBase, Base, First, Count);
        }
        Count := Count + 1;
        Originals := Originals + [value];
      } else {
        StartNewWindow(NextColumn);
        Originals := seq(Count - 1, _ => ZERO) + [value];
      }
      NextColumn := AddColumns(NextColumn, 1);
      History := History + [value];
      ok := true;
    }

    // Keeps element % 8 == column % 8 by skipping some elements.
    method StartNewWindow(column: nat)
      requires column == Wrap(|History|)
      modifies this`ColumnStart, this`SumStartElement, this`SumEndElement, this`FirstUnremovedElement, this`Count, this`Base, this`First
      ensures 0 < Count <= LANE_COUNT && Base + Count == |History| + 1 && Base % LANE_COUNT == 0
      ensures ColumnStart == Wrap(Base) && First == FirstUnremovedElement == Count - 1
      ensures !SumsActive()
    {
      WindowStart(|History|);
      var element := column % LANE_COUNT;
      ColumnStart := column - element;
      SumStartElement, SumEndElement, FirstUnremovedElement := element, element, element;
      Count := element + 1;
      Base, First := |History| - element, element;
    }

    // Marks packets before the given column for removal.
    method RemoveBefore(firstKeptColumn: nat)
      requires Valid()
      modifies this`FirstUnremovedElement, this`Count, this`Originals
      ensures Valid()
      ensures var e := SubtractColumns(firstKeptColumn, ColumnStart);
              if e < old(Count) then
                Count == old(Count) && FirstUnremovedElement == if old(FirstUnremovedElement) < e then e else old(FirstUnremovedElement)
              else if IsColumnDeltaNegative(e) then
                Count == old(Count) && FirstUnremovedElement == old(FirstUnremovedElement)
              else
                Count == 0
    {
      hide AllDirect, LaneShape, Wrap;
      var firstKeptElement := ColumnToElement(firstKeptColumn);
      if firstKeptElement >= Count {
        if !IsColumnDeltaNegative(firstKeptElement) {
          Count, Originals := 0, [];
        }
      } else if FirstUnremovedElement < firstKeptElement {
        FirstUnremovedElement := firstKeptElement;
      }
    }

    // Starts all running sums over at the given element.
    method ResetSums(elementStart: nat)
      requires WindowValid() && First <= elementStart < Count
      modifies this`Running, this`SumStartElement, this`SumEndElement, this`SumColumnStart, this`SumErasedCount, this`SumBase
      ensures WindowValid() && !SumsActive() && SumStartElement == elementStart
      ensures SumColumnStart == Wrap(SumBase) && SumBase == Base + elementStart && SumErasedCount == 0
      ensures AllDirect(Running, History, SumBase, Base, First, Count)
    {
      hide AllDirect, LaneShape, FreshLanes, Wrap;
      Running := FreshLanes(elementStart);
      SumStartElement, SumEndElement := elementStart, elementStart;
      SumColumnStart := ElementToColumn(elementStart);
      SumErasedCount := 0;
      SumBase := Base + elementStart;
      AddWrapped(elementStart, Base);
      FreshIsDirect(History, Base, elementStart, First, Count);
    }

    // Brings one running sum up to elementEnd and returns it.
    method GetSum(lane: nat, s: nat, elementEnd: nat) returns (sum: Gf)
      requires WindowValid() && Count > 0
      requires lane < LANE_COUNT && s < SUM_COUNT && elementEnd <= Count
      requires Direct(Running[lane][s], History, lane, s, SumBase, Base, First, Count)
      modifies this`Running
      ensures LaneShape(Running)
      ensures Running == old(Running)[lane := old(Running)[lane][s := Running[lane][s]]]
      ensures Direct(Running[lane][s], History, lane, s, SumBase, Base, First, Count)
      ensures sum == Running[lane][s].sum && Running[lane][s].nextElement >= elementEnd
    {
      hide Gf256.Add, Mul, ColumnPower, LaneSum, Wrap;
      var element := Running[lane][s].nextElement;
      sum := Running[lane][s].sum;
      while element < elementEnd
        invariant Running == old(Running) && element >= Running[lane][s].nextElement
        invariant Direct(RunningSum(element, sum), History, lane, s, SumBase, Base, First, Count)
        decreases elementEnd - element
      {
        var column := ElementToColumn(element);
        AddWrapped(element, Base);
        LaneOf(Base, element);
        LaneSumNext(History, lane, s, SumBase, Base + element);
        if s == 0 {
          PowerZero(column, Originals[element]);
          sum := Gf256.Add(sum, Originals[element]);
        } else {
          sum := Gf256.Add(sum, Mul(ColumnPower(column, s), Originals[element]));
        }
        element := element + LANE_COUNT;
      }
      Running := Running[lane := Running[lane][s := RunningSum(element, sum)]];
    }

    // Rolls all sums past the removal point and rebases them.
    method RollUpSums(removed: nat)
      requires WindowValid() && Count > 0 && removed <= Count && removed % LANE_COUNT == 0
      requires AllDirect(Running, History, SumBase, Base, First, Count)
      modifies this`Running
      ensures LaneShape(Running)
      ensures AllDirect(Running, History, SumBase, Base + removed, if First > removed then First - removed else 0, Count - removed)
    {
      hide Direct;
      for lane := 0 to LANE_COUNT
        invariant RolledUp(Running, History, SumBase, Base, First, Count, removed, lane, 0)
      {
        for s := 0 to SUM_COUNT
          invariant RolledUp(Running, History, SumBase, Base, First, Count, removed, lane, s)
        {
          ghost var was := Running;
          var sum := GetSum(lane, s, removed);
          var r := Running[lane][s];
          DirectShift(r, History, lane, s, SumBase, Base, First, Count, removed);
          Running := Running[lane := Running[lane][s := RunningSum(r.nextElement - removed, r.sum)]];
          RollOne(was, History, SumBase, Base, First, Count, removed, lane, s, Running[lane][s]);
          assert Running[lane] == was[lane][s := Running[lane][s]];
          assert Running == was[lane := Running[lane]];
        }
        assert RolledUp(Running, History, SumBase, Base, First, Count, removed, lane + 1, 0);
      }
    }

    // Rolls the running sums up for the removal of the first elements.
    method ShiftSums(removed: nat)
      requires WindowValid() && Count > 0 && removed <= FirstUnremovedElement && removed % LANE_COUNT == 0
      requires SumsActive() && SumsValid()
      modifies this`Running, this`SumErasedCount, this`SumStartElement, this`SumEndElement
      ensures LaneShape(Running)
      ensures var first := if First > removed then First - removed else 0;
              && AllDirect(Running, History, SumBase, Base + removed, first, Count - removed)
              && first <= SumStartElement <= FirstUnremovedElement - removed && SumEndElement <= Count - removed
      ensures SumBase + SumErasedCount == Base + removed + SumStartElement
      ensures SumsActive() <==> old(SumEndElement) > removed
    {
      hide Direct, Wrap;
      RollUpSums(removed);
      if removed > SumStartElement {
        SumErasedCount := SumErasedCount + (removed - SumStartElement);
      }
      SumEndElement := if SumEndElement > removed then SumEndElement - removed else 0;
      SumStartElement := if SumStartElement > removed then SumStartElement - removed else 0;
    }

    // Drops whole subwindows of acknowledged packets, keeping the sums.
    method RemoveElements()
      requires Valid() && Count > 0 && FirstUnremovedElement >= SUBWINDOW_SIZE
      modifies this
      ensures Valid() && History == old(History) && NextColumn == old(NextColumn)
      ensures var removed := old(FirstUnremovedElement) / SUBWINDOW_SIZE * SUBWINDOW_SIZE;
              && Base == old(Base) + removed && Count == old(Count) - removed > 0
              && FirstUnremovedElement == old(FirstUnremovedElement) - removed
      ensures SumsActive() <==> old(SumsActive()) && old(SumEndElement) > old(FirstUnremovedElement) / SUBWINDOW_SIZE * SUBWINDOW_SIZE
      ensures SumsActive() ==> SumBase == old(SumBase)
    {
      hide AllDirect, LaneShape, Wrap;
      var removed := FirstUnremovedElement / SUBWINDOW_SIZE * SUBWINDOW_SIZE;
      assert removed % LANE_COUNT == 0;
      if SumEndElement > SumStartElement {
        ShiftSums(removed);
      }
      DropFront(removed);
      if SumEndElement <= SumStartElement {
        ResetSums(FirstUnremovedElement);
      }
    }

    // Moves the window's front past the removed elements.
    method DropFront(removed: nat)
      requires WindowValid() && Count > 0 && removed <= FirstUnremovedElement && removed % LANE_COUNT == 0
      modifies this`Originals, this`Count, this`ColumnStart, this`FirstUnremovedElement, this`Base, this`First
      ensures WindowValid() && Count == old(Count) - removed > 0
      ensures Base == old(Base) + removed && First == if old(First) > removed then old(First) - removed else 0
      ensures FirstUnremovedElement == old(FirstUnremovedElement) - removed
    {
      hide LaneShape, Wrap;
      Originals := Originals[removed..];
      Count := Count - removed;
      AddWrapped(removed, Base);
      ColumnStart := ElementToColumn(removed);
      FirstUnremovedElement := FirstUnremovedElement - removed;
      Base, First := Base + removed, if First > removed then First - removed else 0;
    }
  }

  lemma PowerZero(column: nat, v: Gf)
    ensures Mul(ColumnPower(column, 0), v) == v
  {
    hide Mul;
    MulOne(v);
  }

  lemma WindowStart(n: nat)
    ensures var e := Wrap(n) % LANE_COUNT;
            e == n % LANE_COUNT && (n - e) % LANE_COUNT == 0 && Wrap(n) - e == Wrap(n - e)
  {
    WrapLane(n);
  }
}
