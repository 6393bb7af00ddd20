// The decoder's running lane sums. Unlike the encoder's they may be taken past
// lost packets; the holes are plugged once the packets have been recovered.
module DecoderSums {
  import opened Columns
  import opened Gf256
  import opened LinearAlgebra
  import opened Coefficients
  import opened LaneSums
  import opened EncoderWindow

  // `started` is false while the sum's buffer is empty.
  datatype DecoderSum = DecoderSum(elementStart: nat, elementEnd: nat, started: bool, sum: Gf)

  type SumLanes = seq<seq<DecoderSum>>

  ghost predicate SumShape(lanes: SumLanes) {
    |lanes| == LANE_COUNT && forall l :: 0 <= l < LANE_COUNT ==> |lanes[l]| == SUM_COUNT
  }

  function Value(r: DecoderSum): Gf {
    if r.started then r.sum else ZERO
  }

  // The packets in r, zeros in place of all others.
  ghost function Mask(h: seq<Gf>, r: set<nat>): (m: seq<Gf>)
    ensures |m| == |h|
    ensures forall a :: 0 <= a < |h| ==> m[a] == if a in r then h[a] else ZERO
  {
    seq(|h|, a requires 0 <= a < |h| => if a in r then h[a] else ZERO)
  }

  // Where in a window starting at packet base a sum over a lane from packet
  // sumBase on starts; at the front if sumBase has left the window.
  function LaneStart(base: nat, sumBase: nat, lane: nat): nat
    requires lane < LANE_COUNT
  {
    GetNextLaneElement(if sumBase < base then 0 else sumBase - base, lane)
  }

  // The sum holds the packets of its lane that are in `held`, from sumBase on.
  ghost predicate Holds(r: DecoderSum, h: seq<Gf>, held: set<nat>, lane: nat, s: nat, sumBase: nat, base: nat) {
    && r.elementEnd % LANE_COUNT == lane && sumBase <= base + r.elementEnd
    && Value(r) == LaneSum(Mask(h, held), lane, s, sumBase, base + r.elementEnd)
    && (!r.started ==> forall a :: sumBase <= a < base + r.elementEnd && a % LANE_COUNT == lane && a < |h| ==> a !in held)
  }

  // Every packet of the lane the sum has passed over has been received.
  ghost predicate NoHoles(r: DecoderSum, received: set<nat>, lane: nat, sumBase: nat, base: nat) {
    forall a :: sumBase <= a < base + r.elementEnd && a % LANE_COUNT == lane ==> a in received
  }

  ghost predicate AllHold(lanes: SumLanes, h: seq<Gf>, held: set<nat>, sumBase: nat, base: nat) {
    && SumShape(lanes)
    && forall l, s :: 0 <= l < LANE_COUNT && 0 <= s < SUM_COUNT ==>
         && Holds(lanes[l][s], h, held, l, s, sumBase, base)
         && lanes[l][s].elementStart == LaneStart(base, sumBase, l)
  }

  ghost predicate AllWhole(lanes: SumLanes, received: set<nat>, sumBase: nat, base: nat) {
    && SumShape(lanes)
    && forall l, s :: 0 <= l < LANE_COUNT && 0 <= s < SUM_COUNT ==> NoHoles(lanes[l][s], received, l, sumBase, base)
  }

  // ---- lane sums of masked data ----

  lemma {:induction false} LaneSumSame(g: seq<Gf>, h: seq<Gf>, lane: nat, s: nat, start: nat, end: nat)
    requires |g| == |h|
    requires forall a :: start <= a < end && a < |h| && a % LANE_COUNT == lane ==> g[a] == h[a]
    ensures LaneSum(g, lane, s, start, end) == LaneSum(h, lane, s, start, end)
    decreases end
  {
    hide Add, Mul, ColumnPower;
    if start < end {
      LaneSumSame(g, h, lane, s, start, end - 1);
    }
  }

  lemma {:induction false} LaneSumZero(h: seq<Gf>, lane: nat, s: nat, start: nat, end: nat)
    requires forall a :: start <= a < end && a < |h| && a % LANE_COUNT == lane ==> h[a] == ZERO
    ensures LaneSum(h, lane, s, start, end) == ZERO
    decreases end
  {
    hide Add, Mul, ColumnPower;
    if start < end {
      LaneSumZero(h, lane, s, start, end - 1);
      MulZero(ColumnPower(Wrap(end - 1), s));
      AddZero(ZERO);
    }
  }

  // Filling in packet p of the lane adds its term.
  lemma {:induction false} LaneSumFill(g: seq<Gf>, h: seq<Gf>, lane: nat, s: nat, start: nat, end: nat, p: nat)
    requires start <= p < end && p < |h| == |g| && p % LANE_COUNT == lane
    requires g[p] == ZERO && forall a :: 0 <= a < |h| && a != p ==> g[a] == h[a]
    ensures LaneSum(h, lane, s, start, end) == Add(LaneSum(g, lane, s, start, end), Mul(ColumnPower(Wrap(p), s), h[p]))
    decreases end
  {
    hide Add, Mul, ColumnPower;
    var a := end - 1;
    var v := Mul(ColumnPower(Wrap(p), s), h[p]);
    if a == p {
      LaneSumSame(g, h, lane, s, start, a);
      MulZero(ColumnPower(Wrap(p), s));
      AddZero(LaneSum(g, lane, s, start, a));
    } else {
      LaneSumFill(g, h, lane, s, start, a, p);
      var x, t := LaneSum(g, lane, s, start, a), LaneTerm(g, lane, s, a);
      AddAssoc(x, v, t);
      AddComm(v, t);
      AddAssoc(x, t, v);
    }
  }

  // ---- how single sums change ----

  // Nothing received so far lies in the sum's range: it can start afresh.
  lemma FreshHolds(h: seq<Gf>, held: set<nat>, lane: nat, s: nat, sumBase: nat, base: nat, started: bool)
    requires lane < LANE_COUNT && base % LANE_COUNT == 0
    requires forall a :: sumBase <= a < base && a % LANE_COUNT == lane && a < |h| ==> a !in held
    ensures var e := LaneStart(base, sumBase, lane);
            Holds(DecoderSum(e, e, started, ZERO), h, held, lane, s, sumBase, base)
  {
    hide Add, Mul;
    var e := LaneStart(base, sumBase, lane);
    var from := if sumBase < base then 0 else sumBase - base;
    forall a | sumBase <= a && base <= a && a % LANE_COUNT == lane ensures base + e <= a {
      LaneOf(base, a - base);
      NextOfLane(from, lane, a - base);
    }
    LaneSumZero(Mask(h, held), lane, s, sumBase, base + e);
  }

  // Going past one more packet of the lane, received (and held) or not.
  lemma StepHolds(r: DecoderSum, h: seq<Gf>, held: set<nat>, lane: nat, s: nat, sumBase: nat, base: nat, next: DecoderSum)
    requires base % LANE_COUNT == 0 && base + r.elementEnd < |h|
    requires Holds(r, h, held, lane, s, sumBase, base)
    requires next.elementEnd == r.elementEnd + LANE_COUNT
    requires var a := base + r.elementEnd;
             if a in held then next.started && next.sum == Add(Value(r), Mul(ColumnPower(Wrap(a), s), h[a]))
             else next.started == r.started && next.sum == r.sum
    ensures Holds(next, h, held, lane, s, sumBase, base)
  {
    hide Add, Mul, ColumnPower, LaneSum, Wrap;
    var a := base + r.elementEnd;
    var m := Mask(h, held);
    LaneOf(base, r.elementEnd);
    LaneSumNext(m, lane, s, sumBase, a);
    if a !in held {
      MulZero(ColumnPower(Wrap(a), s));
      AddZero(LaneSum(m, lane, s, sumBase, a));
      forall b | sumBase <= b < base + next.elementEnd && b % LANE_COUNT == lane && b < |h| && !next.started
        ensures b !in held
      {
        if b >= a { OnlyLane(a, b); }
      }
    }
  }

  lemma OnlyLane(a: nat, b: nat)
    requires a <= b < a + LANE_COUNT && a % LANE_COUNT == b % LANE_COUNT
    ensures a == b
  {}

  // Packet p becomes held: it is added to the sum if the sum went past it.
  lemma PlugHolds(r: DecoderSum, h: seq<Gf>, held: set<nat>, lane: nat, s: nat, sumBase: nat, base: nat, p: nat, next: DecoderSum)
    requires Holds(r, h, held, lane, s, sumBase, base) && p < |h| && p !in held
    requires next.elementEnd == r.elementEnd && next.elementStart == r.elementStart
    requires if p % LANE_COUNT == lane && sumBase <= p < base + r.elementEnd
             then next.started && next.sum == Add(Value(r), Mul(ColumnPower(Wrap(p), s), h[p]))
             else next == r
    ensures Holds(next, h, held + {p}, lane, s, sumBase, base)
  {
    hide Add, Mul, ColumnPower, LaneSum, Wrap;
    var g, m := Mask(h, held), Mask(h, held + {p});
    if p % LANE_COUNT == lane && sumBase <= p < base + r.elementEnd {
      LaneSumFill(g, m, lane, s, sumBase, base + r.elementEnd, p);
    } else {
      LaneSumSame(g, m, lane, s, sumBase, base + r.elementEnd);
    }
  }

  // ---- all sums at once ----

  // Beginning to use the sums: an empty sum, or one that starts elsewhere,
  // starts afresh; all get a buffer.
  function StartOne(r: DecoderSum, laneElementStart: nat): DecoderSum {
    if !r.started || r.elementStart != laneElementStart
    then DecoderSum(laneElementStart, laneElementStart, true, ZERO)
    else r
  }

  function StartAll(lanes: SumLanes, elementStart: nat): (r: SumLanes)
    requires SumShape(lanes)
    ensures SumShape(r)
    ensures forall l, s :: 0 <= l < LANE_COUNT && 0 <= s < SUM_COUNT ==>
              r[l][s] == StartOne(lanes[l][s], GetNextLaneElement(elementStart, l))
  {
    seq(LANE_COUNT, l requires 0 <= l < LANE_COUNT => seq(SUM_COUNT, s requires 0 <= s < SUM_COUNT =>
      StartOne(lanes[l][s], GetNextLaneElement(elementStart, l))))
  }

  function ResetAll(elementStart: nat): (r: SumLanes)
    ensures SumShape(r)
    ensures forall l, s :: 0 <= l < LANE_COUNT && 0 <= s < SUM_COUNT ==>
              var e := GetNextLaneElement(elementStart, l); r[l][s] == DecoderSum(e, e, false, ZERO)
  {
    seq(LANE_COUNT, l requires 0 <= l < LANE_COUNT => seq(SUM_COUNT, s =>
      DecoderSum(GetNextLaneElement(elementStart, l), GetNextLaneElement(elementStart, l), false, ZERO)))
  }

  // Sums left behind when the window moved on without them: their start no
  // longer agrees with any start inside the window.
  ghost predicate AllStale(lanes: SumLanes, sumBase: nat, base: nat, lastBase: nat) {
    && SumShape(lanes) && lastBase % LANE_COUNT == 0
    && forall l, s :: 0 <= l < LANE_COUNT && 0 <= s < SUM_COUNT && lanes[l][s].started ==>
         lastBase < base && lanes[l][s].elementStart == LaneStart(lastBase, sumBase, l)
  }

  // Nothing accumulated yet.
  ghost predicate AllEmpty(lanes: SumLanes, sumBase: nat, base: nat) {
    && SumShape(lanes)
    && forall l, s :: 0 <= l < LANE_COUNT && 0 <= s < SUM_COUNT ==> lanes[l][s].elementEnd == LaneStart(base, sumBase, l)
  }

  lemma ResetHolds(h: seq<Gf>, held: set<nat>, base: nat, elementStart: nat)
    requires base % LANE_COUNT == 0
    ensures AllHold(ResetAll(elementStart), h, held, base + elementStart, base)
    ensures AllEmpty(ResetAll(elementStart), base + elementStart, base)
  {
    hide Holds;
    forall l, s | 0 <= l < LANE_COUNT && 0 <= s < SUM_COUNT
      ensures Holds(ResetAll(elementStart)[l][s], h, held, l, s, base + elementStart, base)
    {
      FreshHolds(h, held, l, s, base + elementStart, base, false);
    }
  }

  lemma StartHolds(lanes: SumLanes, h: seq<Gf>, held: set<nat>, sumBase: nat, base: nat)
    requires AllHold(lanes, h, held, sumBase, base) && base % LANE_COUNT == 0
    ensures AllHold(StartAll(lanes, if sumBase < base then 0 else sumBase - base), h, held, sumBase, base)
  {
    var r := StartAll(lanes, if sumBase < base then 0 else sumBase - base);
    forall l, s | 0 <= l < LANE_COUNT && 0 <= s < SUM_COUNT
      ensures Holds(r[l][s], h, held, l, s, sumBase, base)
    {
      if !lanes[l][s].started {
        FreshHolds(h, held, l, s, sumBase, base, true);
      }
    }
  }

  // Starting the sums from packet sumBase on, in a window, leaves none with anything
  // in it exactly if none is taken for one that starts there and has run on.
  lemma StartsAfresh(lanes: SumLanes, sumBase: nat, base: nat)
    requires SumShape(lanes) && base <= sumBase
    ensures AllEmpty(StartAll(lanes, sumBase - base), sumBase, base) <==>
            forall l, s :: 0 <= l < LANE_COUNT && 0 <= s < SUM_COUNT && lanes[l][s].started && lanes[l][s].elementStart == LaneStart(base, sumBase, l) ==>
              lanes[l][s].elementEnd == LaneStart(base, sumBase, l)
  {
    hide GetNextLaneElement;
    var r := StartAll(lanes, sumBase - base);
    assert forall l, s :: 0 <= l < LANE_COUNT && 0 <= s < SUM_COUNT ==> r[l][s] == StartOne(lanes[l][s], LaneStart(base, sumBase, l));
  }

  // All sums have taken in one packet of their lane from the front on.
  function OneTaken(v: Gf): SumLanes {
    seq(LANE_COUNT, (l: nat) => seq(SUM_COUNT, s => DecoderSum(l, l + LANE_COUNT, true, v)))
  }

  // Sums that were stopped when they had left their start, packet 0, behind are
  // taken for sums that start at a front of the window a period later, where the
  // column number is the same; but they do not hold what such sums should.
  lemma StoppedSumsTakenUp(v: Gf, h: seq<Gf>, held: set<nat>)
    requires v != ZERO && forall a :: a in held ==> a < COLUMN_PERIOD
    ensures var stopped := OneTaken(v);
            && Wrap(0) == Wrap(COLUMN_PERIOD)
            && StartAll(stopped, 0) == stopped && !AllHold(stopped, h, held, COLUMN_PERIOD, COLUMN_PERIOD)
  {
    var stopped := OneTaken(v);
    var r := StartAll(stopped, 0);
    forall l, s | 0 <= l < LANE_COUNT && 0 <= s < SUM_COUNT ensures r[l][s] == stopped[l][s] {
      LaneOfFront(l);
    }
    assert forall l :: 0 <= l < LANE_COUNT ==> r[l] == stopped[l];
    LaneSumZero(Mask(h, held), 0, 0, COLUMN_PERIOD, COLUMN_PERIOD + LANE_COUNT);
    assert Value(stopped[0][0]) == v;
  }

  lemma NextLaneShift(x: nat, k: nat, lane: nat)
    requires lane < LANE_COUNT && k % LANE_COUNT == 0
    ensures GetNextLaneElement(x + k, lane) == GetNextLaneElement(x, lane) + k
  {}

  lemma StaleStartHolds(lanes: SumLanes, h: seq<Gf>, held: set<nat>, sumBase: nat, base: nat, lastBase: nat)
    requires AllStale(lanes, sumBase, base, lastBase) && base % LANE_COUNT == 0 && base <= sumBase
    ensures AllHold(StartAll(lanes, sumBase - base), h, held, sumBase, base)
    ensures AllEmpty(StartAll(lanes, sumBase - base), sumBase, base)
  {
    hide Holds;
    var r := StartAll(lanes, sumBase - base);
    forall l, s | 0 <= l < LANE_COUNT && 0 <= s < SUM_COUNT
      ensures Holds(r[l][s], h, held, l, s, sumBase, base) && r[l][s].elementEnd == LaneStart(base, sumBase, l)
    {
      if lanes[l][s].started {
        NextLaneShift(sumBase - base, base - lastBase, l);
      }
      FreshHolds(h, held, l, s, sumBase, base, true);
    }
  }

  // Is packet p, at `element` of the window, inside the sum's range?
  lemma PlugRange(base: nat, sumBase: nat, p: nat, lane: nat)
    requires base % LANE_COUNT == 0 && lane == p % LANE_COUNT && base <= p
    ensures p - base >= LaneStart(base, sumBase, lane) <==> sumBase <= p
  {
    LaneOf(base, p - base);
    var from: nat := if sumBase < base then 0 else sumBase - base;
    if from <= p - base {
      NextOfLane(from, lane, p - base);
    }
  }

  lemma EmptyRange(base: nat, sumBase: nat, p: nat, lane: nat)
    requires base % LANE_COUNT == 0 && lane == p % LANE_COUNT && sumBase <= p && base <= sumBase
    ensures p >= base + LaneStart(base, sumBase, lane)
  {
    PlugRange(base, sumBase, p, lane);
  }

  // ---- moving the front of the window ----

  // One sum of a window that has passed over held packets only, run up to less
  // than a lane past sumEnd or the front.
  ghost predicate Running(r: DecoderSum, h: seq<Gf>, held: set<nat>, lane: nat, s: nat, sumBase: nat, base: nat, sumEnd: nat)
    requires lane < LANE_COUNT
  {
    && Holds(r, h, held, lane, s, sumBase, base) && NoHoles(r, held, lane, sumBase, base)
    && r.elementStart == LaneStart(base, sumBase, lane)
    && base + r.elementEnd < (if sumEnd < base then base else sumEnd) + LANE_COUNT
  }

  // The counters of a sum that ran past the point of removal, relative to it.
  function Rebased(r: DecoderSum, lane: nat, removed: nat): DecoderSum
    requires removed <= r.elementEnd
  {
    r.(elementStart := if r.elementStart >= removed then r.elementStart - removed else lane, elementEnd := r.elementEnd - removed)
  }

  lemma RebasedRunning(r: DecoderSum, h: seq<Gf>, held: set<nat>, lane: nat, s: nat, sumBase: nat, base: nat, removed: nat, sumEnd: nat)
    requires lane < LANE_COUNT && removed % LANE_COUNT == 0 && removed <= r.elementEnd
    requires Holds(r, h, held, lane, s, sumBase, base) && r.elementStart == LaneStart(base, sumBase, lane)
    requires base % LANE_COUNT == 0 && forall a: nat :: a < base + removed ==> a in held
    requires r.elementEnd < removed + LANE_COUNT || (NoHoles(r, held, lane, sumBase, base)
            && base + r.elementEnd < (if sumEnd < base then base else sumEnd) + LANE_COUNT)
    ensures Running(Rebased(r, lane, removed), h, held, lane, s, sumBase, base + removed, sumEnd)
  {
    hide LaneStart, Holds;
    RebasedHolds(r, h, held, lane, s, sumBase, base, removed);
    forall a | sumBase <= a < base + r.elementEnd && a % LANE_COUNT == lane ensures a in held {
      if r.elementEnd < removed + LANE_COUNT {
        EndsInLane(r, h, held, lane, s, sumBase, base);
        LastOfLane(a, base + r.elementEnd);
      }
    }
    RebasedStart(sumBase, base, removed, lane);
  }

  lemma RebasedHolds(r: DecoderSum, h: seq<Gf>, held: set<nat>, lane: nat, s: nat, sumBase: nat, base: nat, removed: nat)
    requires lane < LANE_COUNT && removed % LANE_COUNT == 0 && removed <= r.elementEnd
    requires Holds(r, h, held, lane, s, sumBase, base)
    ensures Holds(Rebased(r, lane, removed), h, held, lane, s, sumBase, base + removed)
  {
    hide LaneSum;
    SameLane(r.elementEnd, removed);
    assert base + removed + Rebased(r, lane, removed).elementEnd == base + r.elementEnd;
  }

  lemma EndsInLane(r: DecoderSum, h: seq<Gf>, held: set<nat>, lane: nat, s: nat, sumBase: nat, base: nat)
    requires Holds(r, h, held, lane, s, sumBase, base) && base % LANE_COUNT == 0
    ensures (base + r.elementEnd) % LANE_COUNT == lane
  {
    hide LaneSum;
    LaneOf(base, r.elementEnd);
  }

  lemma LastOfLane(a: nat, end: nat)
    requires a < end && a % LANE_COUNT == end % LANE_COUNT
    ensures a + LANE_COUNT <= end
  {}

  lemma SameLane(e: nat, removed: nat)
    requires removed % LANE_COUNT == 0 && removed <= e
    ensures (e - removed) % LANE_COUNT == e % LANE_COUNT
  {}

  lemma RebasedStart(sumBase: nat, base: nat, removed: nat, lane: nat)
    requires lane < LANE_COUNT && removed % LANE_COUNT == 0
    ensures var start := LaneStart(base, sumBase, lane);
            LaneStart(base + removed, sumBase, lane) == if start >= removed then start - removed else lane
  {
    hide GetNextLaneElement;
    var start := if sumBase < base then 0 else sumBase - base;
    LaneOfFront(lane);
    if start >= removed {
      NextLaneShift(start - removed, removed, lane);
    } else if LaneStart(base, sumBase, lane) >= removed {
      LaneFront(start, removed, lane);
    }
  }

  lemma LaneOfFront(lane: nat)
    requires lane < LANE_COUNT
    ensures GetNextLaneElement(0, lane) == lane
  {}

  // Starting before the front, the first element of a lane past it is `lane`.
  lemma LaneFront(start: nat, removed: nat, lane: nat)
    requires lane < LANE_COUNT && removed % LANE_COUNT == 0 && start < removed <= GetNextLaneElement(start, lane)
    ensures GetNextLaneElement(start, lane) - removed == lane
  {}

  // The sums before (lane, s) count from the new front, the others from the old.
  ghost predicate RollingUp(lanes: SumLanes, h: seq<Gf>, held: set<nat>, sumBase: nat, base: nat, removed: nat, sumEnd: nat, lane: nat, s: nat) {
    && SumShape(lanes)
    && forall l, t :: 0 <= l < LANE_COUNT && 0 <= t < SUM_COUNT ==>
         Running(lanes[l][t], h, held, l, t, sumBase, if l < lane || (l == lane && t < s) then base + removed else base, sumEnd)
  }

  lemma RolledOne(lanes: SumLanes, h: seq<Gf>, held: set<nat>, sumBase: nat, base: nat, removed: nat, sumEnd: nat, lane: nat, s: nat, r: DecoderSum)
    requires RollingUp(lanes, h, held, sumBase, base, removed, sumEnd, lane, s) && lane < LANE_COUNT && s < SUM_COUNT
    requires Running(r, h, held, lane, s, sumBase, base + removed, sumEnd)
    ensures RollingUp(lanes[lane := lanes[lane][s := r]], h, held, sumBase, base, removed, sumEnd, lane, s + 1)
  {
    hide Running;
  }

  lemma RollLane(lanes: SumLanes, h: seq<Gf>, held: set<nat>, sumBase: nat, base: nat, removed: nat, sumEnd: nat, lane: nat)
    requires RollingUp(lanes, h, held, sumBase, base, removed, sumEnd, lane, SUM_COUNT)
    ensures RollingUp(lanes, h, held, sumBase, base, removed, sumEnd, lane + 1, 0)
  {
    hide Running;
  }

  // ---- passing over received packets only ----

  lemma FreshWhole(received: set<nat>, lane: nat, sumBase: nat, base: nat, r: DecoderSum)
    requires lane < LANE_COUNT && base % LANE_COUNT == 0 && r.elementEnd == LaneStart(base, sumBase, lane)
    requires forall a: nat :: a < base ==> a in received
    ensures NoHoles(r, received, lane, sumBase, base)
  {
    hide GetNextLaneElement;
    var start := if sumBase < base then 0 else sumBase - base;
    forall a | sumBase <= a && base <= a && a % LANE_COUNT == lane ensures base + r.elementEnd <= a {
      LaneOf(base, a - base);
      NextOfLane(start, lane, a - base);
    }
  }

  lemma EmptyWhole(lanes: SumLanes, received: set<nat>, sumBase: nat, base: nat)
    requires AllEmpty(lanes, sumBase, base) && base % LANE_COUNT == 0
    requires forall a: nat :: a < base ==> a in received
    ensures AllWhole(lanes, received, sumBase, base)
  {
    hide NoHoles, LaneStart;
    forall l, s | 0 <= l < LANE_COUNT && 0 <= s < SUM_COUNT ensures NoHoles(lanes[l][s], received, l, sumBase, base) {
      FreshWhole(received, l, sumBase, base, lanes[l][s]);
    }
  }

  lemma StartWhole(lanes: SumLanes, received: set<nat>, sumBase: nat, base: nat)
    requires AllWhole(lanes, received, sumBase, base) && base % LANE_COUNT == 0
    requires forall a: nat :: a < base ==> a in received
    ensures AllWhole(StartAll(lanes, if sumBase < base then 0 else sumBase - base), received, sumBase, base)
  {
    hide NoHoles, GetNextLaneElement;
    var r := StartAll(lanes, if sumBase < base then 0 else sumBase - base);
    forall l, s | 0 <= l < LANE_COUNT && 0 <= s < SUM_COUNT ensures NoHoles(r[l][s], received, l, sumBase, base) {
      if r[l][s] != lanes[l][s] {
        FreshWhole(received, l, sumBase, base, r[l][s]);
      }
    }
  }
}
