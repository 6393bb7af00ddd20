// Making recovery packets: Siamese rows from running sums and random pairs,
// parity and Cauchy rows, or a copy of a single packet.
module Encoder {
  import opened Collections
  import opened Columns
  import opened Gf256
  import opened LinearAlgebra
  import opened Coefficients
  import opened LaneSums
  import opened EncoderWindow
  import opened SentPackets

  datatype RecoveryPacket = RecoveryPacket(payload: Gf, metadata: Metadata)

  // The packet's payload is its row of coefficients times the packets from
  // `start` on, and its range ends with the newest packet.
  ghost predicate Encodes(p: RecoveryPacket, raw: Draws, h: seq<Gf>, start: nat) {
    && ValidMetadata(p.metadata) && (p.metadata.sumCount == 1 ==> p.metadata.row == 0)
    && start + p.metadata.sumCount == |h| && Wrap(start) == p.metadata.columnStart
    && p.payload == Dot(CoefficientRow(raw, p.metadata), h[start..])
  }

  lemma AllDirectUpdate(lanes: Lanes, h: seq<Gf>, sumBase: nat, base: nat, first: nat, count: nat, lane: nat, s: nat, r: RunningSum)
    requires AllDirect(lanes, h, sumBase, base, first, count) && lane < LANE_COUNT && s < SUM_COUNT
    requires Direct(r, h, lane, s, sumBase, base, first, count)
    ensures AllDirect(lanes[lane := lanes[lane][s := r]], h, sumBase, base, first, count)
  {
    hide Direct;
  }

  lemma RowFirst(raw: Draws, m: Metadata, h: seq<Gf>, start: nat)
    requires ValidMetadata(m) && start + m.sumCount <= |h|
    ensures Dot(CoefficientRow(raw, m)[..1], h[start..start + 1]) == Mul(Coefficient(raw, m, 0), h[start])
  {
    hide Add, Mul, Coefficient;
    RowSnoc(raw, m, h, start, 0);
    assert Dot(CoefficientRow(raw, m)[..0], h[start..start]) == ZERO;
    AddZero(Mul(Coefficient(raw, m, 0), h[start]));
  }

  lemma RowWhole(raw: Draws, m: Metadata, h: seq<Gf>, start: nat)
    requires ValidMetadata(m) && start + m.sumCount == |h|
    ensures Dot(CoefficientRow(raw, m)[..m.sumCount], h[start..start + m.sumCount]) == Dot(CoefficientRow(raw, m), h[start..])
  {
    hide Dot, CoefficientRow;
    assert CoefficientRow(raw, m)[..m.sumCount] == CoefficientRow(raw, m);
    assert h[start..start + m.sumCount] == h[start..];
  }

  class Encoder {
    var Window: EncoderPacketWindow
    var NextRow: nat
    var NextParityColumn: nat
    var NextCauchyRow: nat

    ghost var Log: seq<Sent>    // all recovery packets made

    ghost predicate Valid()
      reads this, Window
    {
      Window.Valid() && RowsCounted()
    }

    ghost predicate RowsCounted()
      reads this, Window`History
    {
      Counted(Log, NextRow, NextCauchyRow, NextParityColumn, |Window.History|)
    }

    // Are the running sums still on once the front of the window has been dropped?
    predicate SumsKept()
      reads this`Window, Window
    {
      && Window.SumsActive()
      && (Window.FirstUnremovedElement >= REMOVE_THRESHOLD ==>
            Window.SumEndElement > Window.FirstUnremovedElement / SUBWINDOW_SIZE * SUBWINDOW_SIZE)
    }

    // They are taken up if the row they give is not too long, or so short that the
    // faster rows will do.
    ghost predicate SumsGoOn(kept: bool, sumBase: nat, unacknowledged: int)
      reads this, Window`History
    {
      kept && CAUCHY_THRESHOLD < |Window.History| - sumBase < MAX_PACKETS && unacknowledged > SUM_RESET_THRESHOLD
    }

    constructor ()
      ensures Valid() && fresh(Window) && Window.History == [] && Window.Count == 0 && Log == []
    {
      Window := new EncoderPacketWindow();
      NextRow, NextParityColumn, NextCauchyRow := 0, 0, 0;
      Log := [];
    }

    // Adds the running sums of one lane the opcode asks for.
    method AddLane(lane: nat, row: nat, base: nat, acc: Gf) returns (r: Gf)
      requires Window.WindowValid() && Window.Count > 0 && Window.SumBase <= |Window.History|
      requires AllDirect(Window.Running, Window.History, Window.SumBase, Window.Base, Window.First, Window.Count)
      requires lane < LANE_COUNT && row < ROW_PERIOD && (base == 0 || base == 3)
      modifies Window`Running
      ensures AllDirect(Window.Running, Window.History, Window.SumBase, Window.Base, Window.First, Window.Count)
      ensures r == Add(acc, LaneHalf(Window.History, row, lane, base, Window.SumBase, |Window.History|))
    {
      hide Add, OpcodeBit, LaneSum, Direct, LaneHalf, Wrap;
      var w := Window;
      ghost var h := w.History;
      r := acc;
      AddZero(acc);
      for s := 0 to SUM_COUNT
        invariant AllDirect(w.Running, h, w.SumBase, w.Base, w.First, w.Count)
        invariant r == Add(acc, PartialHalf(h, row, lane, base, w.SumBase, |h|, s))
      {
        ghost var p := PartialHalf(h, row, lane, base, w.SumBase, |h|, s);
        if OpcodeBit(lane, row, base + s) {
          ghost var was := w.Running;
          var sum := w.GetSum(lane, s, w.Count);
          AllDirectUpdate(was, h, w.SumBase, w.Base, w.First, w.Count, lane, s, w.Running[lane][s]);
          DirectIsFull(w.Running[lane][s], h, lane, s, w.SumBase, w.Base, w.First, w.Count);
          r := Add(r, sum);
          AddAssoc(acc, p, sum);
        } else {
          AddZero(p);
        }
      }
      PartialHalfAll(h, row, lane, base, w.SumBase, |h|);
    }

    method AddDenseColumns(row: nat) returns (payload: Gf, product: Gf)
      requires Window.WindowValid() && Window.Count > 0 && Window.SumsValid() && row < ROW_PERIOD
      requires Window.SumStartElement < Window.Count
      modifies Window`Running, Window`SumEndElement
      ensures Window.WindowValid() && Window.SumsValid() && Window.SumEndElement == Window.Count
      ensures payload == AllLanes(Window.History, row, LANE_COUNT, 0, Window.SumBase, |Window.History|)
      ensures product == AllLanes(Window.History, row, LANE_COUNT, 3, Window.SumBase, |Window.History|)
    {
      hide Add, LaneHalf, Direct, Wrap;
      var w := Window;
      payload, product := ZERO, ZERO;
      for lane := 0 to LANE_COUNT
        invariant AllDirect(w.Running, w.History, w.SumBase, w.Base, w.First, w.Count)
        invariant payload == AllLanes(w.History, row, lane, 0, w.SumBase, |w.History|)
        invariant product == AllLanes(w.History, row, lane, 3, w.SumBase, |w.History|)
      {
        payload := AddLane(lane, row, 0, payload);
        product := AddLane(lane, row, 3, product);
      }
      w.SumEndElement := w.Count;
    }

    method AddLightColumns(raw: Draws, row: nat, payload: Gf, product: Gf) returns (p: Gf, w: Gf)
      requires Window.WindowValid() && Window.Count > 0 && Window.SumEndElement == Window.Count
      ensures var count := Window.Count - Window.FirstUnremovedElement;
              var g := Window.History[|Window.History| - count..];
              && p == Add(payload, LightSum(g, raw, row, PairCount(count), 0))
              && w == Add(product, LightSum(g, raw, row, PairCount(count), 1))
    {
      hide Add, Draw, Wrap, LaneShape;
      var startElement := Window.FirstUnremovedElement;
      var count := Window.SumEndElement - startElement;
      ghost var g := Window.History[|Window.History| - count..];
      p, w := payload, product;
      AddZero(payload);
      AddZero(product);
      for i := 0 to PairCount(count)
        invariant p == Add(payload, LightSum(g, raw, row, i, 0))
        invariant w == Add(product, LightSum(g, raw, row, i, 1))
      {
        var element1 := startElement + Draw(raw, row, count, 2 * i);
        var elementRX := startElement + Draw(raw, row, count, 2 * i + 1);
        AddAssoc(payload, LightSum(g, raw, row, i, 0), Window.Originals[element1]);
        AddAssoc(product, LightSum(g, raw, row, i, 1), Window.Originals[elementRX]);
        p := Add(p, Window.Originals[element1]);
        w := Add(w, Window.Originals[elementRX]);
      }
    }

    // A Siamese row; sums are running or have just been reset.
    method GenerateSiamesePacket(raw: Draws) returns (packet: RecoveryPacket)
      requires Valid() && Window.Count > 0 && Window.SumsValid() && Window.SumStartElement < Window.Count
      requires CAUCHY_THRESHOLD < |Window.History| - Window.SumBase <= MAX_PACKETS
      modifies this`NextRow, this`Log, Window`Running, Window`SumEndElement
      ensures Valid() && Window.History == old(Window.History) && Window.SumsActive()
      ensures Log == old(Log) + [Sent(packet.metadata, Window.SumBase)] && SiameseSent(Log[|old(Log)|])
      ensures Encodes(packet, raw, Window.History, Window.SumBase)
      ensures packet.metadata.ldpcCount == Window.Count - Window.FirstUnremovedElement
    {
      hide Add, Mul, GetRowValue, AllLanes, LightSum, LaneShape, AllDirect, CoefficientRow, Dot, InTurn, SiameseCount, CauchyCount, ParityEnd;
      var w := Window;
      var row := NextRow;
      NextRow := if NextRow + 1 >= ROW_PERIOD then 0 else NextRow + 1;
      var payload, product := AddDenseColumns(row);
      payload, product := AddLightColumns(raw, row, payload, product);
      payload := Add(payload, Mul(GetRowValue(row), product));
      var sumCount := w.SumEndElement - w.SumStartElement + w.SumErasedCount;
      var metadata := Metadata(row, w.SumColumnStart, sumCount, w.Count - w.FirstUnremovedElement);
      SiameseRow(w.History, raw, metadata, w.SumBase, |w.History|);
      ghost var h, light := w.History, |w.History| - metadata.ldpcCount;
      assert h[w.SumBase..|h|] == h[w.SumBase..] && h[light..|h|] == h[light..];
      packet := RecoveryPacket(payload, metadata);
      CountedOne(Log, Sent(metadata, w.SumBase), row, NextCauchyRow, NextParityColumn, |h|);
      Log := Log + [Sent(metadata, w.SumBase)];
    }

    // A copy of the one packet in flight.
    method GenerateSinglePacket(raw: Draws) returns (packet: RecoveryPacket)
      requires Valid() && Window.Count > 0 && Window.Count - Window.FirstUnremovedElement == 1
      modifies this`Log
      ensures Valid() && Log == old(Log) + [Sent(packet.metadata, Window.Base + Window.FirstUnremovedElement)]
      ensures Encodes(packet, raw, Window.History, Window.Base + Window.FirstUnremovedElement)
      ensures packet.metadata.ldpcCount == packet.metadata.sumCount == 1
    {
      hide Add, Mul;
      var w := Window;
      var v := w.Originals[w.FirstUnremovedElement];
      var column := w.ElementToColumn(w.FirstUnremovedElement);
      AddWrapped(w.FirstUnremovedElement, w.Base);
      packet := RecoveryPacket(v, Metadata(0, column, 1, 1));
      MulOne(v);
      AddZero(v);
      assert w.History[w.Base + w.FirstUnremovedElement..] == [v];
      assert CoefficientRow(raw, packet.metadata) == [ONE];
      assert DotFrom([ONE], [v], 1) == ZERO;
      ghost var s := Sent(packet.metadata, w.Base + w.FirstUnremovedElement);
      CountedOne(Log, s, NextRow, NextCauchyRow, NextParityColumn, |w.History|);
      Log := Log + [s];
    }

    // A parity row when the last one's range has been acknowledged, else the
    // next Cauchy row.
    method GenerateCauchyPacket(raw: Draws) returns (packet: RecoveryPacket)
      requires Valid() && Window.Count > 0 && 1 < Window.Count - Window.FirstUnremovedElement <= CAUCHY_THRESHOLD
      modifies this`NextParityColumn, this`NextCauchyRow, this`Log
      ensures Valid() && Log == old(Log) + [Sent(packet.metadata, Window.Base + Window.FirstUnremovedElement)]
      ensures packet.metadata.row == 0 <==> ParityDue(ParityEnd(old(Log)), Window.Base, Window.FirstUnremovedElement)
      ensures Encodes(packet, raw, Window.History, Window.Base + Window.FirstUnremovedElement)
      ensures packet.metadata.ldpcCount == packet.metadata.sumCount == Window.Count - Window.FirstUnremovedElement
    {
      hide AllDirect, LaneShape, CoefficientRow, Dot, InTurn, SiameseCount, CauchyCount, ParityEnd, ParityDue, SubtractColumns, IsColumnDeltaNegative, Wrap;
      var w := Window;
      var firstElement := w.FirstUnremovedElement;
      var unacknowledgedCount := w.GetUnacknowledgedCount();
      var columnStart := w.ElementToColumn(firstElement);
      AddWrapped(firstElement, w.Base);
      var nextParityElement := w.ColumnToElement(NextParityColumn);
      ghost var start, cauchyRowWas, parityColumnWas := w.Base + firstElement, NextCauchyRow, NextParityColumn;
      DueByColumn(ParityEnd(Log), w.Base, firstElement);
      DueOnceAcknowledged(ParityEnd(Log), w.Base, firstElement);
      var metadata := Metadata(0, columnStart, unacknowledgedCount, unacknowledgedCount);
      var payload;
      if nextParityElement <= firstElement || IsColumnDeltaNegative(nextParityElement) {
        NextParityColumn := AddColumns(columnStart, unacknowledgedCount);
        AddWrapped(unacknowledgedCount, start);
        payload := SumParity(raw, metadata);
      } else {
        var cauchyRow := NextCauchyRow;
        metadata := metadata.(row := cauchyRow + 1);
        NextCauchyRow := if NextCauchyRow + 1 >= CAUCHY_MAX_ROWS then 0 else NextCauchyRow + 1;
        payload := SumCauchy(raw, metadata, cauchyRow);
      }
      packet := RecoveryPacket(payload, metadata);
      RowWhole(raw, metadata, w.History, start);
      CountedOne(Log, Sent(metadata, start), NextRow, cauchyRowWas, parityColumnWas, |w.History|);
      Log := Log + [Sent(metadata, start)];
    }

    ghost predicate CoversWindow(m: Metadata)
      reads this, Window
    {
      && Window.WindowValid() && Window.Count > 0 && ValidMetadata(m) && m.sumCount <= CAUCHY_THRESHOLD
      && m.sumCount == Window.Count - Window.FirstUnremovedElement
      && m.columnStart == Wrap(Window.Base + Window.FirstUnremovedElement)
    }

    method SumParity(raw: Draws, ghost m: Metadata) returns (payload: Gf)
      requires CoversWindow(m) && m.row == 0
      ensures var start := Window.Base + Window.FirstUnremovedElement;
              payload == Dot(CoefficientRow(raw, m)[..m.sumCount], Window.History[start..start + m.sumCount])
    {
      hide Add, Mul, Dot, CoefficientRow, Wrap, LaneShape, DenseCoefficient, LightCoefficient;
      var w := Window;
      ghost var start := w.Base + w.FirstUnremovedElement;
      payload := w.Originals[w.FirstUnremovedElement];
      MulOne(payload);
      RowFirst(raw, m, w.History, start);
      for element := w.FirstUnremovedElement + 1 to w.Count
        invariant var k := element - w.FirstUnremovedElement;
                  payload == Dot(CoefficientRow(raw, m)[..k], w.History[start..start + k])
      {
        MulOne(w.Originals[element]);
        RowSnoc(raw, m, w.History, start, element - w.FirstUnremovedElement);
        payload := Add(payload, w.Originals[element]);
      }
    }

    method SumCauchy(raw: Draws, m: Metadata, cauchyRow: nat) returns (payload: Gf)
      requires CoversWindow(m) && m.row == cauchyRow + 1
      ensures var start := Window.Base + Window.FirstUnremovedElement;
              payload == Dot(CoefficientRow(raw, m)[..m.sumCount], Window.History[start..start + m.sumCount])
    {
      hide Add, Mul, Dot, CoefficientRow, CauchyElement, Wrap, LaneShape, Coefficient;
      var w := Window;
      ghost var start := w.Base + w.FirstUnremovedElement;
      var cauchyColumn := m.columnStart % CAUCHY_MAX_COLUMNS;
      CauchyCoefficient(raw, m, 0);
      payload := Mul(CauchyElement(cauchyRow, cauchyColumn), w.Originals[w.FirstUnremovedElement]);
      RowFirst(raw, m, w.History, start);
      for element := w.FirstUnremovedElement + 1 to w.Count
        invariant cauchyColumn == (m.columnStart + (element - 1 - w.FirstUnremovedElement)) % CAUCHY_MAX_COLUMNS
        invariant var k := element - w.FirstUnremovedElement;
                  payload == Dot(CoefficientRow(raw, m)[..k], w.History[start..start + k])
      {
        ghost var i := element - w.FirstUnremovedElement;
        NextCauchyColumn(m.columnStart, i);
        cauchyColumn := (cauchyColumn + 1) % CAUCHY_MAX_COLUMNS;
        CauchyCoefficient(raw, m, i);
        RowSnoc(raw, m, w.History, start, i);
        payload := Add(payload, Mul(CauchyElement(cauchyRow, cauchyColumn), w.Originals[element]));
      }
    }

    // Which kind of packet is made, and where its range starts.
    ghost predicate Chosen(log: seq<Sent>, m: Metadata, start: nat, kept: bool, sumBase: nat)
      reads this, Window
    {
      var s, first, unacknowledged := Sent(m, start), Window.FirstUnremoved(), |Window.History| - Window.FirstUnremoved();
      if unacknowledged > CAUCHY_THRESHOLD || SumsGoOn(kept, sumBase, unacknowledged) then
        SiameseSent(s) && Window.SumsActive() && start == if SumsGoOn(kept, sumBase, unacknowledged) then sumBase else first
      else
        && start == first && m.sumCount == unacknowledged
        && (unacknowledged > 1 ==>
              && (Window.SumsActive() <==> kept && |Window.History| - sumBase >= MAX_PACKETS)
              && if ParityDue(ParityEnd(log), Window.Base, Window.FirstUnremovedElement) then ParitySent(s) else CauchySent(s))
    }

    lemma ChosenFor(log: seq<Sent>, m: Metadata, start: nat, kept: bool, sumBase: nat, base: nat)
      requires Chosen(log, m, start, kept, sumBase) && (kept ==> sumBase == base)
      ensures Chosen(log, m, start, kept, base)
    {
      hide ParityDue, ParityEnd;
    }

    lemma SiameseChosen(log: seq<Sent>, m: Metadata, start: nat, kept: bool, sumBase: nat)
      requires SiameseSent(Sent(m, start)) && Window.SumsActive()
      requires var unacknowledged := |Window.History| - Window.FirstUnremoved();
               if SumsGoOn(kept, sumBase, unacknowledged) then start == sumBase
               else unacknowledged > CAUCHY_THRESHOLD && start == Window.FirstUnremoved()
      ensures Chosen(log, m, start, kept, sumBase)
    {
      hide ParityDue, ParityEnd;
    }

    lemma ShortChosen(log: seq<Sent>, m: Metadata, start: nat, kept: bool, sumBase: nat)
      requires var unacknowledged := |Window.History| - Window.FirstUnremoved();
               && 1 < unacknowledged == m.sumCount <= CAUCHY_THRESHOLD && !SumsGoOn(kept, sumBase, unacknowledged)
      requires start == Window.FirstUnremoved() && (Window.SumsActive() <==> kept && |Window.History| - sumBase >= MAX_PACKETS)
      requires m.row == 0 <==> ParityDue(ParityEnd(log), Window.Base, Window.FirstUnremovedElement)
      ensures Chosen(log, m, start, kept, sumBase)
    {
      hide ParityDue, ParityEnd;
    }

    lemma SingleChosen(log: seq<Sent>, m: Metadata, kept: bool, sumBase: nat)
      requires Window.WindowValid() && Window.Count > 0 && Window.Count - Window.FirstUnremovedElement == 1 == m.sumCount
      ensures Chosen(log, m, Window.Base + Window.FirstUnremovedElement, kept, sumBase)
    {
      hide LaneShape, Wrap, ParityDue, ParityEnd;
    }

    // Makes the next recovery packet, if there is anything to protect. Its
    // range ends with the newest packet and its light range is everything the
    // receiver has not acknowledged.
    method Encode(raw: Draws) returns (packet: Option<RecoveryPacket>, ghost start: nat)
      requires Valid()
      modifies this`NextRow, this`NextParityColumn, this`NextCauchyRow, this`Log, Window
      ensures Valid() && Window == old(Window) && Window.History == old(Window.History)
      ensures Window.FirstUnremoved() == old(Window.FirstUnremoved())
      ensures packet.None? <==> old(Window.Count) == 0
      ensures Log == if packet.Some? then old(Log) + [Sent(packet.value.metadata, start)] else old(Log)
      ensures packet.Some? ==> Chosen(old(Log), packet.value.metadata, start, old(SumsKept()), old(Window.SumBase))
      ensures packet.Some? ==>
                && Encodes(packet.value, raw, Window.History, start)
                && Window.Count > 0 && Window.FirstUnremovedElement < REMOVE_THRESHOLD
                && packet.value.metadata.ldpcCount == Window.Count - Window.FirstUnremovedElement
    {
      hide Encodes, AllDirect, LaneShape, Wrap, Counted, Encoder.Chosen;
      start := 0;
      var w := Window;
      if w.Count <= 0 {
        return None, 0;
      }
      if w.FirstUnremovedElement >= REMOVE_THRESHOLD {
        w.RemoveElements();
      }
      if w.GetUnacknowledgedCount() == 1 {
        ghost var log := Log;
        var p := GenerateSinglePacket(raw);
        SingleChosen(log, p.metadata, old(SumsKept()), old(Window.SumBase));
        return Some(p), w.Base + w.FirstUnremovedElement;
      }
      var p;
      ghost var log, kept, sumBase := Log, w.SumsActive(), w.SumBase;
      p, start := EncodeSeveral(raw);
      ChosenFor(log, p.metadata, start, kept, sumBase, old(Window.SumBase));
      packet := Some(p);
    }

    // Stop using sums.
    method StopSums()
      requires Valid()
      modifies Window`SumEndElement
      ensures Valid() && !Window.SumsActive()
    {
      hide AllDirect, LaneShape, Wrap, Counted;
      Window.SumEndElement := Window.SumStartElement;
    }

    // Chooses between parity or Cauchy rows and Siamese rows.
    method EncodeSeveral(raw: Draws) returns (packet: RecoveryPacket, ghost start: nat)
      requires Valid() && Window.Count > 0 && Window.Count - Window.FirstUnremovedElement > 1
      modifies this`NextRow, this`NextParityColumn, this`NextCauchyRow, this`Log, Window
      ensures Valid() && Window == old(Window) && Window.History == old(Window.History) && Window.Count > 0
      ensures Window.Base == old(Window.Base) && Window.FirstUnremovedElement == old(Window.FirstUnremovedElement)
      ensures Log == old(Log) + [Sent(packet.metadata, start)]
      ensures Chosen(old(Log), packet.metadata, start, old(Window.SumsActive()), old(Window.SumBase))
      ensures Encodes(packet, raw, Window.History, start)
      ensures packet.metadata.ldpcCount == Window.Count - Window.FirstUnremovedElement
    {
      hide Encodes, AllDirect, LaneShape, Wrap, Counted, ParityDue, ParityEnd, Encoder.Chosen;
      var w := Window;
      ghost var log, kept, sumBase := Log, w.SumsActive(), w.SumBase;
      var unacknowledgedCount := w.GetUnacknowledgedCount();
      var newSumCountUB := w.Count - w.SumStartElement + w.SumErasedCount;
      if w.SumEndElement <= w.SumStartElement || newSumCountUB >= MAX_PACKETS {
        if unacknowledgedCount <= CAUCHY_THRESHOLD {
          packet := GenerateCauchyPacket(raw);
          ShortChosen(log, packet.metadata, w.Base + w.FirstUnremovedElement, kept, sumBase);
          return packet, w.Base + w.FirstUnremovedElement;
        }
        w.ResetSums(w.FirstUnremovedElement);
      } else if unacknowledgedCount <= SUM_RESET_THRESHOLD || newSumCountUB <= CAUCHY_THRESHOLD {
        StopSums();
        packet := GenerateCauchyPacket(raw);
        ShortChosen(log, packet.metadata, w.Base + w.FirstUnremovedElement, kept, sumBase);
        return packet, w.Base + w.FirstUnremovedElement;
      }
      packet := GenerateSiamesePacket(raw);
      start := w.SumBase;
      SiameseChosen(log, packet.metadata, start, kept, sumBase);
    }
  }

  lemma CauchyCoefficient(raw: Draws, m: Metadata, i: nat)
    requires ValidMetadata(m) && m.sumCount <= CAUCHY_THRESHOLD && m.row > 0 && i < m.sumCount
    ensures Coefficient(raw, m, i) == CauchyElement(m.row - 1, (m.columnStart + i) % CAUCHY_MAX_COLUMNS)
  {
    hide CauchyElement;
    WrapLane(m.columnStart + i);
  }

  lemma NextCauchyColumn(columnStart: nat, i: nat)
    requires i > 0
    ensures ((columnStart + (i - 1)) % CAUCHY_MAX_COLUMNS + 1) % CAUCHY_MAX_COLUMNS == (columnStart + i) % CAUCHY_MAX_COLUMNS
  {}
}
