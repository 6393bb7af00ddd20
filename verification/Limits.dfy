// Where the decoder falls short: a region that could not be solved is not looked at
// again with the packets listed behind it, a delayed row can disable the decoder, and
// a packet in order can be judged out of order.
module Limits {
  import opened Collections
  import opened Columns
  import opened Gf256
  import opened LinearAlgebra
  import opened Coefficients
  import opened DecoderSums
  import opened Losses
  import opened Recoveries
  import opened Rank
  import opened Regions
  import opened Mds
  import opened DecoderWindow
  import opened Decoder

  // A parity and a Cauchy packet over the first two packets sent.
  function ParityOfTwo(payload: Gf, lostCount: nat): Recovery {
    Recovery(Metadata(0, 0, 2, 2), 0, 2, lostCount, payload)
  }

  function CauchyOfTwo(payload: Gf, lostCount: nat): Recovery {
    Recovery(Metadata(1, 0, 2, 2), 0, 2, lostCount, payload)
  }

  // Packets over the same range are listed in front of those already there.
  lemma ListedInFront(p: Gf, q: Gf)
    ensures var r, c := Recovery(Metadata(0, 0, 2, 2), 0, 2, 0, p), Recovery(Metadata(1, 0, 2, 2), 0, 2, 0, q);
            && r == ParityOfTwo(p, 0) && c == CauchyOfTwo(q, 0)
            && Inserted([], c) == [c] && Inserted([c], r) == [r, c] && Inserted([r, c], r) == [r, r, c] && Place([r, c], r) == 0
  {
    var r, c := ParityOfTwo(p, 0), CauchyOfTwo(q, 0);
    var none: seq<Recovery>, one, two := [], [c], [r, c];
    assert none[..0] == none && Place(none, c) == 0;
    assert one[..0] == [] && Place(one, r) == 0;
    assert two[..1] == [r] && Place(two, r) == 0;
  }

  // More rows determine what some of them do.
  lemma MoreRows(rows: seq<Row>, more: seq<Row>, n: nat)
    requires Shaped(rows, n) && Shaped(more, n) && FullColumnRank(rows, n) && forall r :: 0 <= r < |rows| ==> rows[r] in more
    ensures FullColumnRank(more, n)
  {
    hide Dot;
    forall x: Row | |x| == n && InKernel(more, x) ensures IsZero(x) {
      assert InKernel(rows, x);
    }
  }

  // One row, however often, does not determine two losses that it adds up.
  lemma RepeatedRow(row: Row)
    requires row == [ONE, ONE]
    ensures !FullColumnRank([row, row], 2)
  {
    hide Add, Mul;
    var x := [ONE, ONE];
    MulOne(ONE);
    AddSelf(ONE);
    AddZero(ONE);
    assert DotFrom(row, x, 2) == ZERO;
    assert DotFrom(row, x, 1) == Add(Mul(row[1], x[1]), DotFrom(row, x, 2));
    assert Dot(row, x) == ZERO;
    assert InKernel([row, row], x) && x[0] != ZERO;
  }

  lemma TwoLost(received: set<nat>)
    requires 0 !in received && 1 !in received
    ensures Lost(received, 2) == [0, 1]
  {
    assert Lost(received, 0) == [];
    assert Lost(received, 1) == [0];
  }

  // The list of a parity packet delivered twice and a Cauchy packet behind it.
  ghost predicate Twice(recs: seq<Recovery>) {
    && |recs| == 3 && recs[0] == ParityOfTwo(recs[0].payload, recs[0].lostCount) && recs[1] == ParityOfTwo(recs[1].payload, recs[1].lostCount)
    && recs[2] == CauchyOfTwo(recs[2].payload, recs[2].lostCount)
  }

  lemma ParityRow(raw: Draws, r: Recovery)
    requires r == ParityOfTwo(r.payload, r.lostCount)
    ensures EntryRow(raw, r.metadata, 0, [0, 1]) == [ONE, ONE]
  {}

  // The two parity packets do not determine the losses, all three packets do.
  lemma TwiceDetermined(recs: seq<Recovery>, raw: Draws)
    requires Twice(recs)
    ensures !Determined(recs, 2, raw, 0, [0, 1]) && Determined(recs, 3, raw, 0, [0, 1])
  {
    hide FullColumnRank, EntryRow, Lost;
    var l := [0, 1];
    ParityRow(raw, recs[0]);
    ParityRow(raw, recs[1]);
    assert MatrixRows(recs, 2, raw, 0, l) == [[ONE, ONE], [ONE, ONE]];
    RepeatedRow([ONE, ONE]);
    var different := [recs[1], recs[2]];
    AnyLossesRecoverable(different, 2, raw, 0, l, [2, 2]);
    MoreRows(MatrixRows(different, 2, raw, 0, l), MatrixRows(recs, 3, raw, 0, l), 2);
  }

  // The region checked is that of the parity packets: Decode wants more data although
  // the packets it has determine the losses.
  lemma ParityDeliveredTwice(d: Decoder)
    requires Twice(d.Recoveries) && d.Region == NO_REGION && d.Window.Base == 0 && 0 !in d.Window.Received && 1 !in d.Window.Received
    ensures d.Reached() == 2 && d.Promising() && !d.Recoverable()
    ensures Determined(d.Recoveries, 3, d.Raw, d.Window.Base, LossesOf(d.Recoveries, 3, d.Window.Received, d.Window.Base))
  {
    hide Determined, Lost;
    var recs, received := d.Recoveries, d.Window.Received;
    TwoLost(received);
    TwiceDetermined(recs, d.Raw);
    assert forall k :: 1 <= k <= 3 ==> LossesOf(recs, k, received, 0) == [0, 1];
    assert Enough(recs, received, 0, 2) == 2;
    assert Enough(recs, received, 0, 1) == 2;
  }

  // Once Decode has wanted more data after trying to solve, calling it again is of no
  // use, whatever the packets listed determine, until one arrives.
  lemma StalledStays(d: Decoder)
    requires d.Stalled()
    ensures !d.Promising() && !d.Recoverable()
  {}

  // So the answer stays the same however often it is called.
  method DecodeInVain(d: Decoder, times: nat) returns (answers: seq<SiameseResult>)
    requires d.Valid() && !d.EmergencyDisabled && !d.HasRecoveredPackets && d.Promising() && !d.Recoverable()
    modifies d, d.Window, d.Matrix
    ensures |answers| == times && forall i :: 0 <= i < times ==> answers[i] == NeedMoreData
    ensures d.Valid() && d.Window.Received == old(d.Window.Received) && (times > 0 ==> d.Stalled())
  {
    hide *;
    answers := [];
    for i := 0 to times
      invariant d.Valid() && !d.EmergencyDisabled && !d.HasRecoveredPackets && d.Window.Received == old(d.Window.Received)
      invariant |answers| == i && forall k :: 0 <= k < i ==> answers[k] == NeedMoreData
      invariant if i == 0 then d.Promising() && !d.Recoverable() else d.Stalled()
    {
      if i > 0 {
        StalledStays(d);
      }
      var result, packets;
      ghost var l;
      result, packets, l := d.Decode();
      answers := answers + [result];
    }
  }

  // Nothing has been received but recovery packets over the first two packets.
  ghost predicate Early(d: Decoder, recs: seq<Recovery>)
    reads d, d.Window, d.Matrix
  {
    && d.Valid() && !d.EmergencyDisabled && !d.HasRecoveredPackets && d.Recoveries == recs
    && |d.Window.History| >= 2 && d.Window.Received == {} && d.Window.Base == 0 && d.Window.Count <= 2
    && d.Window.NextExpectedElement == 0 && (if recs == [] then d.Window.Count == 0 && d.LatestColumn == 0 else d.Window.Count > 0)
  }

  // A parity or Cauchy packet over these arrives.
  method Arrive(d: Decoder, row: nat, payload: Gf, ghost recs: seq<Recovery>)
    requires Early(d, recs) && row <= 1 && payload == Dot(CoefficientRow(d.Raw, Metadata(row, 0, 2, 2)), d.Window.History[0..2])
    modifies d, d.Window, d.Matrix
    ensures Early(d, Inserted(recs, Recovery(Metadata(row, 0, 2, 2), 0, 2, 0, payload))) && d.Window.History == old(d.Window.History)
    ensures Place(recs, Recovery(Metadata(row, 0, 2, 2), 0, 2, 0, payload)) < |recs| ==> d.Region == NO_REGION
  {
    hide *;
    ghost var m := Metadata(row, 0, 2, 2);
    EarlyParts(d, recs);
    MayArrive(d, recs, m);
    ghost var waiting, region := d.Waiting(), d.Region;
    var result := d.AddRecovery(Metadata(row, 0, 2, 2), payload, 0);
    JoinsReceived(false, 0, {}, waiting, d.Window.Received, d.Waiting());
    d.ListedNowParts(recs, Placed(m, payload, 0, 0), 0, region);
    PlacedEarly(m, payload);
    d.JustListedParts(recs, Placed(m, payload, 0, 0), region);
    EarlyFold(d, recs, m, payload, region);
  }

  lemma EarlyParts(d: Decoder, recs: seq<Recovery>)
    requires Early(d, recs)
    ensures d.Valid() && !d.EmergencyDisabled && !d.HasRecoveredPackets && d.Recoveries == recs && |d.Window.History| >= 2
    ensures d.Window.Received == {} && d.Window.Base == 0 && d.Window.Count <= 2
    ensures DECODER_REMOVE_THRESHOLD > 0
  {
    hide Decoder.Valid;
  }

  lemma MayArrive(d: Decoder, recs: seq<Recovery>, m: Metadata)
    requires Early(d, recs) && m.row <= 1 && m.columnStart == 0 && m.sumCount == m.ldpcCount == 2
    ensures d.Sent(m, 0) && d.InTime(m, 0) && d.StartTold(m, 0) && d.LastTold(m, 0) && d.Needed(m, 0, d.OutOfOrder(m))
  {
    hide Decoder.Valid;
  }

  lemma PlacedEarly(m: Metadata, payload: Gf)
    requires m.sumCount == m.ldpcCount == 2
    ensures Placed(m, payload, 0, 0).elementStart == 0
  {}

  lemma EarlyFold(d: Decoder, recs: seq<Recovery>, m: Metadata, payload: Gf, region: CheckedRegion)
    requires d.Valid() && !d.HasRecoveredPackets && |d.Window.History| >= 2
    requires d.Window.Received == {} && d.Window.Base == 0 && d.Window.Count <= 2
    requires m.sumCount == m.ldpcCount == 2 && d.JustListed(recs, Placed(m, payload, 0, 0), region)
    ensures Early(d, Inserted(recs, Recovery(m, 0, 2, 0, payload)))
    ensures Place(recs, Recovery(m, 0, 2, 0, payload)) < |recs| ==> d.Region == NO_REGION
  {
    hide Lost, Wrap, Carries, ValidMetadata, Place, Inserted, Near;
    hide Decoder.MatrixValid, Decoder.RegionValid, DecoderPacketWindow.Valid;
    assert 0 !in d.Window.Received;
    InsertedSome(recs, Recovery(m, 0, 2, 0, payload));
    assert Fits(d.Recoveries[0], d.Window.Base, d.Window.Count, d.Window.NextExpectedElement);
  }

  lemma EarlyStart(d: Decoder)
    requires d.Valid() && !d.EmergencyDisabled && !d.HasRecoveredPackets && d.Recoveries == [] && |d.Window.History| >= 2
    requires d.Window.Received == {} && d.Window.Base == 0 && d.Window.Count == 0 && d.LatestColumn == 0
    ensures Early(d, [])
  {
    hide DecoderPacketWindow.Valid;
  }

  lemma EarlyTwice(d: Decoder, p: Gf, q: Gf)
    requires Early(d, [ParityOfTwo(p, 0), ParityOfTwo(p, 0), CauchyOfTwo(q, 0)]) && d.Region == NO_REGION
    ensures d.Valid() && !d.EmergencyDisabled && !d.HasRecoveredPackets && d.Promising() && !d.Recoverable()
  {
    hide Decoder.Valid, Decoder.Promising, Decoder.Recoverable;
    ParityDeliveredTwice(d);
  }

  // From the start: the two packets sent are lost, a Cauchy packet over them arrives,
  // then a parity packet, which the channel delivers twice.
  method CauchyThenParityTwice(raw: Draws, p: Gf, q: Gf, times: nat, ghost history: seq<Gf>) returns (answers: seq<SiameseResult>)
    requires |history| >= 2
    requires p == Dot(CoefficientRow(raw, Metadata(0, 0, 2, 2)), history[0..2]) && q == Dot(CoefficientRow(raw, Metadata(1, 0, 2, 2)), history[0..2])
    ensures |answers| == times && forall i :: 0 <= i < times ==> answers[i] == NeedMoreData
  {
    hide *;
    var d := new Decoder(raw, history);
    EarlyStart(d);
    ListedInFront(p, q);
    Arrive(d, 1, q, []);
    Arrive(d, 0, p, [CauchyOfTwo(q, 0)]);
    Arrive(d, 0, p, [ParityOfTwo(p, 0), CauchyOfTwo(q, 0)]);
    EarlyTwice(d, p, q);
    answers := DecodeInVain(d, times);
  }

  // A region of parity and Cauchy packets with different row numbers can always be
  // solved once it is reached.
  lemma DifferentRowsRecoverable(d: Decoder)
    requires Ranged(d.Recoveries, d.Window.Base) && d.Promising() && DistinctRows(d.Recoveries, d.Reached())
    requires var losses := LossesOf(d.Recoveries, d.Reached(), d.Window.Received, d.Window.Base);
             losses != [] && forall i :: 0 <= i < d.Reached() ==> Covers(d.Recoveries[i], d.Window.Base, losses)
    ensures d.Recoverable()
  {
    hide Determined, Lost;
    var k := d.Reached();
    var losses := LossesOf(d.Recoveries, k, d.Window.Received, d.Window.Base);
    if 0 < k <= |d.Recoveries| {
      LostLists(d.Window.Received, d.Window.Base + d.Recoveries[k - 1].elementEnd);
    }
    AnyLossesRecoverable(d.Recoveries, k, d.Raw, d.Window.Base, losses, seq(k, _ => |losses|));
  }

  // The decoder takes the delayed row of SumOrder.DelayedRow: it looks at where the
  // sums start, and not at how far they have run or at the row's place in the list.
  lemma DelayedRowNeeded(d: Decoder, row: nat, outOfOrder: bool)
    requires d.Window.Base == 192 && d.Window.Count == 72 && d.Window.NextExpectedElement == 18
    requires d.Window.SumColumnStart == 64 && d.Window.SumColumnCount == 200
    ensures d.Needed(Metadata(row, 64, 190, 50), 64, outOfOrder)
  {}

  // A row that starts 50 packets before the column numbers start over ends later than
  // the latest packet, which is 100 packets after that, and is taken for an older one.
  lemma JudgedOutOfOrder(d: Decoder, row: nat)
    requires d.LatestColumn == Wrap(COLUMN_PERIOD + 100) && row < ROW_PERIOD
    ensures var start, m := COLUMN_PERIOD - 50, Metadata(row, COLUMN_PERIOD - 50, 200, 200);
            ValidMetadata(m) && m.columnStart == Wrap(start) && start + m.sumCount > COLUMN_PERIOD + 100 && d.OutOfOrder(m)
  {}

  // ---- half a column period without recovery packets ----

  datatype Arrival = Data(a: nat, value: Gf) | Repair(m: Metadata, payload: Gf, start: nat)

  function ArrivalEnd(arrival: Arrival): nat {
    if arrival.Data? then arrival.a else arrival.start + arrival.m.sumCount
  }

  // It was sent, and it is about packets that seem to lie before a window that starts
  // at packet base.
  ghost predicate Beyond(arrival: Arrival, raw: Draws, base: nat, received: set<nat>, h: seq<Gf>) {
    && base + COLUMN_PERIOD / 2 <= ArrivalEnd(arrival) < base + COLUMN_PERIOD
    && match arrival
       case Data(a, value) => a < |h| && value == h[a]
       case Repair(m, payload, start) =>
         && ValidMetadata(m) && Wrap(start) == m.columnStart && (m.sumCount == 1 ==> m.row == 0) && start + m.sumCount <= |h|
         && (forall a: nat :: a < start + m.sumCount - m.ldpcCount ==> a in received)
         && payload == Dot(CoefficientRow(raw, m), h[start..start + m.sumCount])
  }

  ghost predicate Waiting(d: Decoder)
    reads d, d.Window, d.Matrix
  {
    d.Valid() && !d.EmergencyDisabled && d.Window.Count > 0
  }

  lemma WaitingParts(d: Decoder)
    requires Waiting(d)
    ensures d.Valid() && !d.EmergencyDisabled && 0 < d.Window.Count <= COLUMN_PERIOD / 2
  {
    hide Decoder.RowsValid, Decoder.RegionValid, Decoder.MatrixValid, Decoder.LastValid, Decoder.OutputValid, Wrap;
    hide DecoderPacketWindow.SumsValid, DecoderPacketWindow.PendingValid, DecoderPacketWindow.StartValid;
  }

  lemma WaitingFold(d: Decoder)
    requires d.Valid() && !d.EmergencyDisabled && d.Window.Count > 0
    ensures Waiting(d)
  {
    hide Decoder.Valid;
  }

  lemma BeyondData(d: Decoder, a: nat, value: Gf)
    requires Beyond(Data(a, value), d.Raw, d.Window.Base, d.Window.Received, d.Window.History)
    ensures d.Window.Base + COLUMN_PERIOD / 2 <= a < d.Window.Base + COLUMN_PERIOD && a < |d.Window.History|
    ensures value == d.Window.History[a]
  {}

  lemma BeyondRepair(d: Decoder, m: Metadata, payload: Gf, start: nat)
    requires Beyond(Repair(m, payload, start), d.Raw, d.Window.Base, d.Window.Received, d.Window.History) && 0 < d.Window.Count <= COLUMN_PERIOD / 2
    ensures start + m.sumCount <= |d.Window.History| && d.Sent(m, start)
    ensures payload == Dot(CoefficientRow(d.Raw, m), d.Window.History[start..start + m.sumCount])
    ensures d.InTime(m, start) && d.StartTold(m, start) && d.LastTold(m, start)
    ensures d.Window.Base + COLUMN_PERIOD / 2 <= start + m.sumCount && !d.Needed(m, start, d.OutOfOrder(m))
  {
    hide Dot, CoefficientRow, Wrap;
  }

  // Whatever arrives from half a period past the front of the window on is ignored.
  method Ignore(d: Decoder, arrival: Arrival) returns (result: SiameseResult)
    requires Waiting(d) && Beyond(arrival, d.Raw, d.Window.Base, d.Window.Received, d.Window.History)
    modifies d, d.Window, d.Matrix
    ensures Waiting(d) && d.Window.Base == old(d.Window.Base) && d.Window.History == old(d.Window.History)
    ensures d.Window.Received == old(d.Window.Received) && (arrival.Data? ==> result == DuplicateData)
  {
    hide *;
    WaitingParts(d);
    match arrival {
      case Data(a, value) =>
        BeyondData(d, a, value);
        AnyPeriod();
        WrapIs(a);
        result := d.AddOriginal(a % COLUMN_PERIOD, value, a);
      case Repair(m, payload, start) =>
        BeyondRepair(d, m, payload, start);
        ghost var received, waiting := d.Window.Received, d.Waiting();
        result := d.AddRecovery(m, payload, start);
        JoinsReceived(false, start, received, waiting, d.Window.Received, d.Waiting());
    }
    WaitingFold(d);
  }

  lemma AnyPeriod()
    ensures COLUMN_PERIOD > 0
  {}

  lemma WrapIs(a: nat)
    ensures a % COLUMN_PERIOD == Wrap(a)
  {}

  // All the while: nothing more is received, however much is sent.
  method IgnoreAll(d: Decoder, arrivals: seq<Arrival>)
    requires Waiting(d)
    requires forall i :: 0 <= i < |arrivals| ==> Beyond(arrivals[i], d.Raw, d.Window.Base, d.Window.Received, d.Window.History)
    modifies d, d.Window, d.Matrix
    ensures Waiting(d) && d.Window.Base == old(d.Window.Base) && d.Window.Received == old(d.Window.Received)
  {
    hide *;
    for i := 0 to |arrivals|
      invariant Waiting(d) && d.Window.Base == old(d.Window.Base) && d.Window.Received == old(d.Window.Received)
      invariant d.Window.History == old(d.Window.History)
    {
      var result := Ignore(d, arrivals[i]);
    }
  }

  // From the start: half a period of packets is received without a recovery packet,
  // so that the window stays where it is. The next packet, delayed by nothing, is
  // taken for a duplicate, and so is every packet after it.
  method OriginalsOnly(raw: Draws, packets: seq<Gf>, ghost history: seq<Gf>) returns (d: Decoder, result: SiameseResult)
    requires packets <= history && |packets| == COLUMN_PERIOD / 2 + 1
    ensures Waiting(d) && d.Window.Base == 0 && d.Window.History == history
    ensures forall a: nat :: a in d.Window.Received <==> a < COLUMN_PERIOD / 2
    ensures result == DuplicateData
  {
    hide *;
    d := new Decoder(raw, history);
    HalfPositive();
    var half := COLUMN_PERIOD / 2;
    for a := 0 to half
      invariant fresh(d) && fresh(d.Window) && fresh(d.Matrix) && d.Valid() && !d.EmergencyDisabled
      invariant d.Window.Base == 0 && d.Window.History == history && d.Window.Received == Range(a)
    {
      WrapIs(a);
      result := d.AddOriginal(a % COLUMN_PERIOD, packets[a], a);
      RangeNext(a);
    }
    RangeIs(half);
    GotSome(d);
    WrapIs(half);
    result := d.AddOriginal(half % COLUMN_PERIOD, packets[half], half);
    GotSome(d);
    WaitingFold(d);
  }

  lemma HalfPositive()
    ensures 0 < COLUMN_PERIOD / 2 < COLUMN_PERIOD
  {}

  lemma RangeNext(n: nat)
    ensures Range(0) == {} && Range(n) + {n} == Range(n + 1)
  {}

  lemma RangeIs(n: nat)
    ensures forall a: nat :: a in Range(n) <==> a < n
  {}

  lemma GotSome(d: Decoder)
    requires d.Valid() && !d.EmergencyDisabled && 0 in d.Window.Received
    ensures d.Window.Count > 0
  {
    hide Decoder.RowsValid, Decoder.RegionValid, Decoder.MatrixValid, Decoder.LastValid, Decoder.OutputValid, DecoderPacketWindow.Valid;
  }

  // ---- stopped sums a period later ----

  // A window in which sums started at packet 0 were stopped after they had left their
  // start behind, and whose front is a whole period later.
  method StoppedWindow(v: Gf, ghost history: seq<Gf>) returns (w: DecoderPacketWindow)
    requires |history| == COLUMN_PERIOD + LANE_COUNT
    ensures fresh(w) && w.Valid() && w.WindowValid() && w.NextValid() && w.SumsWhole() && !w.Live && w.History == history && w.Pending == []
    ensures w.Base == COLUMN_PERIOD && w.SumBase == 0 && w.SumColumnStart == 0 && w.Received == Range(COLUMN_PERIOD)
    ensures w.Sums == OneTaken(v)
  {
    hide *;
    StoppedLanes();
    w := new DecoderPacketWindow(history);
    MoveFar(w);
    StopFar(w, v);
    RangeIs(COLUMN_PERIOD);
    StoppedFront(w);
    StoppedValid(w, v);
  }

  method MoveFar(w: DecoderPacketWindow)
    modifies w
    ensures w.Count == LANE_COUNT && w.ColumnStart == w.NextExpectedElement == 0 && w.Base == COLUMN_PERIOD
    ensures w.Originals == seq(LANE_COUNT, _ => None) && w.MatrixColumns == seq(LANE_COUNT, _ => 0)
    ensures w.Received == Range(COLUMN_PERIOD) && w.History == old(w.History)
  {
    hide Range;
    w.Count, w.ColumnStart, w.NextExpectedElement := LANE_COUNT, 0, 0;
    w.Originals, w.MatrixColumns := seq(LANE_COUNT, _ => None), seq(LANE_COUNT, _ => 0);
    w.Base, w.Received := COLUMN_PERIOD, Range(COLUMN_PERIOD);
  }

  method StopFar(w: DecoderPacketWindow, v: Gf)
    modifies w`Sums, w`SumColumnStart, w`SumColumnCount, w`RecoveredColumns, w`SumBase, w`Live, w`Pending
    ensures w.Sums == OneTaken(v) && w.SumColumnStart == w.SumColumnCount == w.SumBase == 0
    ensures !w.Live && w.RecoveredColumns == [] && w.Pending == []
  {
    hide OneTaken;
    w.Sums, w.SumColumnStart, w.SumColumnCount, w.RecoveredColumns := OneTaken(v), 0, 0, [];
    w.SumBase, w.Live, w.Pending := 0, false, [];
  }

  lemma StoppedLanes()
    ensures LANE_COUNT == 8
  {}

  lemma StoppedFront(w: DecoderPacketWindow)
    requires |w.History| == COLUMN_PERIOD + LANE_COUNT && w.Received == Range(COLUMN_PERIOD)
    requires w.Count == LANE_COUNT && w.ColumnStart == w.NextExpectedElement == 0 && w.Base == COLUMN_PERIOD
    requires w.Originals == seq(LANE_COUNT, _ => None) && w.MatrixColumns == seq(LANE_COUNT, _ => 0)
    ensures w.WindowValid() && w.NextValid()
  {
    hide Range;
    RangeIs(COLUMN_PERIOD);
  }

  lemma StoppedValid(w: DecoderPacketWindow, v: Gf)
    requires w.WindowValid() && w.Base == COLUMN_PERIOD && w.SumBase == w.SumColumnStart == w.SumColumnCount == 0 && !w.Live
    requires w.Pending == [] && w.RecoveredColumns == []
    requires w.Sums == OneTaken(v)
    ensures w.Valid() && w.SumsWhole()
  {
    hide AllHold, EndsBefore, AllStale, AllWhole, DecoderPacketWindow.WindowValid;
  }

  // A row that starts at the front has the column number of their start, so that it
  // takes them up; but they do not hold what has been received from there on.
  method StoppedSumsUsed(v: Gf, ghost history: seq<Gf>) returns (w: DecoderPacketWindow)
    requires v != ZERO && |history| == COLUMN_PERIOD + LANE_COUNT
    ensures w.WindowValid() && w.Base == COLUMN_PERIOD && w.SumColumnStart == Wrap(w.Base) && !ToldApart(w.Base, w.SumBase)
    ensures !AllHold(w.Sums, history, w.Received, w.Base, w.Base)
  {
    hide *;
    w := StoppedWindow(v, history);
    RangeIs(COLUMN_PERIOD);
    StoppedSumsTakenUp(v, history, w.Received);
    PeriodPositive();
    w.StartSums(0);
    PeriodWraps();
  }

  lemma PeriodPositive()
    ensures COLUMN_PERIOD > 0
  {}

  lemma PeriodWraps()
    ensures Wrap(COLUMN_PERIOD) == 0 && !ToldApart(COLUMN_PERIOD, 0)
  {}

  // ---- a row that is not needed disables the decoder ----

  // All packets up to the n-th have been received, and no recovery packet was of use.
  ghost predicate AllIn(d: Decoder, n: nat, base: nat, latest: nat)
    reads d, d.Window, d.Matrix
  {
    && d.Valid() && !d.EmergencyDisabled && d.Recoveries == [] && d.LatestColumn == latest
    && d.Window.Base == base && d.Window.Received == Range(n) && d.Window.SumColumnStart == d.Window.SumColumnCount == 0
  }

  lemma AllInParts(d: Decoder, n: nat, base: nat, latest: nat)
    requires AllIn(d, n, base, latest)
    ensures d.Valid() && !d.EmergencyDisabled && d.Recoveries == [] && d.LatestColumn == latest
    ensures d.Window.Base == base && d.Window.Received == Range(n) && d.Window.SumColumnStart == d.Window.SumColumnCount == 0
  {
    hide Decoder.Valid, Range;
  }

  lemma AllInFold(d: Decoder, n: nat, base: nat, latest: nat)
    requires d.Valid() && !d.EmergencyDisabled && d.Recoveries == [] && d.LatestColumn == latest
    requires d.Window.Base == base && d.Window.Received == Range(n) && d.Window.SumColumnStart == d.Window.SumColumnCount == 0
    ensures AllIn(d, n, base, latest)
  {
    hide Decoder.Valid, Range;
  }

  // Then the window ends with the n-th packet, and the next expected one is behind it.
  lemma AllInWindow(d: Decoder, n: nat, base: nat, latest: nat)
    requires AllIn(d, n, base, latest) && base < n
    ensures d.Window.Count > 0 && d.Window.Base + d.Window.NextExpectedElement == n && d.Window.NextExpectedElement <= d.Window.Count
    ensures d.Window.Count <= COLUMN_PERIOD / 2
  {
    hide Range, Lost, Wrap, Decoder.RowsValid, Decoder.RegionValid, Decoder.MatrixValid, Decoder.LastValid, Decoder.OutputValid;
    hide DecoderPacketWindow.SumsValid, DecoderPacketWindow.PendingValid, DecoderPacketWindow.StartValid;
    RangeIs(n);
    var w := d.Window;
    assert n - 1 in w.Received;
    if w.NextExpectedElement > 0 {
      assert w.Base + w.NextExpectedElement - 1 in w.Received;
    }
  }

  // Delivers the packets from the n-th up to the m-th.
  method DeliverUpTo(d: Decoder, packets: seq<Gf>, n: nat, m: nat, ghost base: nat, ghost latest: nat)
    requires AllIn(d, n, base, latest) && n <= m <= |packets| && m <= base + COLUMN_PERIOD / 2 && base <= n && packets <= d.Window.History
    modifies d, d.Window, d.Matrix
    ensures AllIn(d, m, base, latest) && d.Window.History == old(d.Window.History)
  {
    hide *;
    HalfPositive();
    for a := n to m
      invariant AllIn(d, a, base, latest) && d.Window.History == old(d.Window.History)
    {
      AllInParts(d, a, base, latest);
      WrapIs(a);
      var result := d.AddOriginal(a % COLUMN_PERIOD, packets[a], a);
      RangeNext(a);
      AllInFold(d, a + 1, base, latest);
    }
  }

  // A recovery packet over received packets: it can only say what may be removed.
  lemma MayPass(d: Decoder, n: nat, base: nat, latest: nat, m: Metadata, start: nat)
    requires AllIn(d, n, base, latest) && base < n == start + m.sumCount <= |d.Window.History| && n < 1000
    requires ValidMetadata(m) && m.columnStart == start && (m.sumCount == 1 ==> m.row == 0)
    requires base + m.ldpcCount + DECODER_REMOVE_THRESHOLD <= n && latest <= n && (base <= start ==> m.sumCount <= CAUCHY_THRESHOLD)
    ensures d.Sent(m, start) && d.InTime(m, start) && d.StartTold(m, start) && d.LastTold(m, start)
    ensures !d.OutOfOrder(m) && d.Passed(m, start, false) && !d.Needed(m, start, false)
    ensures d.Window.LastClips(m, start) <==> m.sumCount > CAUCHY_THRESHOLD && start < base && start != 0
    ensures d.Window.LastRemoves(m, start) == WholeSubwindows(n - m.ldpcCount - base)
  {
    hide Decoder.Valid, Range, WholeSubwindows;
    AllInWindow(d, n, base, latest);
    RangeIs(n);
  }

  // From the start: 200 packets are received, and a recovery packet that repeats the
  // last one, so that the first 192 are dropped. The sums of the encoder run from packet
  // 100 on, but the rows made of them so far were lost. 201 packets later another one
  // arrives, neither late nor out of order, nor needed: its sum would have to start where
  // data has been dropped, and the decoder is disabled for good.
  method RowAfterSingle(raw: Draws, packets: seq<Gf>, row: nat, payload: Gf, ghost history: seq<Gf>) returns (d: Decoder)
    requires packets <= history && |packets| == 401 && row < ROW_PERIOD && ValidMetadata(Metadata(row, 100, 301, 41))
    requires payload == Dot(CoefficientRow(raw, Metadata(row, 100, 301, 41)), history[100..401])
    ensures d.EmergencyDisabled && d.Window.Received == Range(401)
  {
    hide *;
    d := new Decoder(raw, history);
    RangeNext(0);
    Runs();
    AllInFold(d, 0, 0, 0);
    DeliverUpTo(d, packets, 0, 200, 0, 0);
    MayPass(d, 200, 0, 0, Metadata(0, 199, 1, 1), 199);
    SingleRow(raw, Metadata(0, 199, 1, 1), history, 199);
    AllInParts(d, 200, 0, 0);
    ghost var waiting := d.Waiting();
    var result := d.AddRecovery(Metadata(0, 199, 1, 1), packets[199], 199);
    JoinsReceived(false, 199, Range(200), waiting, d.Window.Received, d.Waiting());
    d.MovedFrontParts(Metadata(0, 199, 1, 1), 0, 192, 0, 0);
    NoPackets(0, d.Recoveries, d.Window.Base);
    AllInFold(d, 200, 192, 200);
    DeliverUpTo(d, packets, 200, 401, 192, 200);
    MayPass(d, 401, 192, 200, Metadata(row, 100, 301, 41), 100);
    AllInParts(d, 401, 192, 200);
    waiting := d.Waiting();
    result := d.AddRecovery(Metadata(row, 100, 301, 41), payload, 100);
    JoinsReceived(false, 100, Range(401), waiting, d.Window.Received, d.Waiting());
  }

  lemma Runs()
    ensures COLUMN_PERIOD / 2 > 1000 && DECODER_REMOVE_THRESHOLD == 128 && CAUCHY_THRESHOLD == 64 && WholeSubwindows(199) == 192
    ensures ValidMetadata(Metadata(0, 199, 1, 1)) && AddColumns(199, 1) == 200
  {}

  lemma NoPackets(base: nat, more: seq<Recovery>, base': nat)
    ensures SamePackets([], base, more, base') ==> more == []
  {}
}
