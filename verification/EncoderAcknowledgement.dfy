// The encoder's side of acknowledgements: it keeps the last one and steps
// through the losses it lists.
module EncoderAcknowledgement {
  import opened Columns
  import opened EncoderWindow
  import Losses
  import opened Serializers
  import opened Acknowledgement

  function Padding(): (b: Bytes)
    ensures |b| == PADDING_BYTES
  {
    [0, 0, 0, 0, 0, 0, 0, 0]
  }

  lemma {:induction false} EncodedSplit(ranges: seq<LossRange>, k: nat)
    requires AllEncodable(ranges) && k <= |ranges|
    ensures AllEncodable(ranges[..k]) && AllEncodable(ranges[k..])
    ensures Encoded(ranges) == Encoded(ranges[..k]) + Encoded(ranges[k..])
  {
    hide SerializeHeaderNACKLossRange;
    if k > 0 {
      EncodedSplit(ranges[1..], k - 1);
      assert ranges[..k][1..] == ranges[1..][..k - 1] && ranges[1..][k - 1..] == ranges[k..];
    } else {
      assert ranges[0..] == ranges;
    }
  }

  // Reading at the front gives the first range, if there is one.
  lemma FirstRange(ranges: seq<LossRange>)
    requires AllEncodable(ranges)
    ensures Encoded(ranges) == [] <==> ranges == []
    ensures ranges != [] ==>
              DeserializeHeaderNACKLossRange(Encoded(ranges) + Padding()) == Field(ranges[0], |SerializeHeaderNACKLossRange(ranges[0])|)
  {
    hide SerializeHeaderNACKLossRange, DeserializeHeaderNACKLossRange, Padding;
    if ranges != [] {
      var b, rest := SerializeHeaderNACKLossRange(ranges[0]), Encoded(ranges[1..]);
      assert Encoded(ranges) + Padding() == b + (rest + Padding());
      LossRangeRoundTrip(ranges[0], rest + Padding());
    }
  }

  // Different lists of ranges are encoded differently.
  lemma {:induction false} EncodedInjective(ranges: seq<LossRange>, other: seq<LossRange>)
    requires AllEncodable(ranges) && AllEncodable(other) && Encoded(ranges) == Encoded(other)
    ensures ranges == other
    decreases |ranges|
  {
    hide SerializeHeaderNACKLossRange, DeserializeHeaderNACKLossRange, Padding;
    FirstRange(ranges);
    FirstRange(other);
    if ranges != [] {
      var b := SerializeHeaderNACKLossRange(ranges[0]);
      assert Encoded(ranges)[|b|..] == Encoded(ranges[1..]);
      assert Encoded(other)[|b|..] == Encoded(other[1..]);
      EncodedInjective(ranges[1..], other[1..]);
      assert ranges == [ranges[0]] + ranges[1..] && other == [other[0]] + other[1..];
    }
  }

  lemma ExpandFirst(from_: nat, ranges: seq<LossRange>)
    ensures |ranges| == 0 ==> Expand(from_, ranges) == []
    ensures |ranges| > 0 ==>
              var start, n := from_ + ranges[0].relativeStart, ranges[0].lossCountM1 + 1;
              Expand(from_, ranges) == Run(start, n) + Expand(start + n + 1, ranges[1..]) && Expand(from_, ranges) != []
  {}

  class EncoderAcknowledgementState {
    const TheWindow: EncoderPacketWindow
    var Data: Bytes
    var DataBytes: nat
    var Offset: nat
    var LossColumn: nat
    var LossCount: nat
    var NextColumnExpected: nat

    ghost var NextExpected: nat       // the packet the receiver expects next
    ghost var NextLoss: nat           // the packet of LossColumn
    ghost var Ranges: seq<LossRange>  // the ranges in Data
    ghost var Position: nat           // how many of them have been read

    ghost predicate Valid()
      reads this
    {
      && NextColumnExpected == Wrap(NextExpected) && LossColumn == Wrap(NextLoss)
      && AllEncodable(Ranges) && Position <= |Ranges|
      && DataBytes == |Encoded(Ranges)| && (DataBytes > 0 ==> Data == Encoded(Ranges) + Padding())
      && AllEncodable(Ranges[..Position]) && Offset == |Encoded(Ranges[..Position])|
    }

    // The packets still to be listed.
    ghost function Remaining(): seq<nat>
      reads this
      requires Position <= |Ranges|
    {
      Run(NextLoss, LossCount) + Expand(NextLoss + LossCount + 1, Ranges[Position..])
    }

    constructor (window: EncoderPacketWindow)
      ensures Valid() && TheWindow == window && NextExpected == 0 && Remaining() == []
    {
      TheWindow := window;
      Data, DataBytes, Offset, LossColumn, LossCount, NextColumnExpected := [], 0, 0, 0, 0, 0;
      NextExpected, NextLoss, Ranges, Position := 0, 0, [], 0;
    }

    // Reads the next range; false if there is none.
    method DecodeNextRange() returns (ok: bool)
      requires Valid()
      modifies this`Offset, this`LossColumn, this`LossCount, this`NextLoss, this`Position
      ensures Valid() && (ok <==> old(Position) < |Ranges|)
      ensures ok ==>
                && Position == old(Position) + 1 && LossCount == Ranges[old(Position)].lossCountM1 + 1
                && NextLoss == old(NextLoss) + Ranges[old(Position)].relativeStart
      ensures !ok ==> unchanged(this)
    {
      hide SerializeHeaderNACKLossRange, DeserializeHeaderNACKLossRange, Padding, Wrap, RangeEncodable;
      EncodedSplit(Ranges, Position);
      FirstRange(Ranges[Position..]);
      if Offset >= DataBytes {
        return false;
      }
      assert Data[Offset..] == Encoded(Ranges[Position..]) + Padding();
      var field := DeserializeHeaderNACKLossRange(Data[Offset..]);
      ghost var range := Ranges[Position];
      EncodedSnoc(Ranges[..Position], range);
      assert Ranges[..Position + 1] == Ranges[..Position] + [range];
      Offset := Offset + field.bytes;
      AddWrapped(field.value.relativeStart, NextLoss);
      LossColumn := AddColumns(LossColumn, field.value.relativeStart);
      LossCount := field.value.lossCountM1 + 1;
      NextLoss, Position := NextLoss + range.relativeStart, Position + 1;
      ok := true;
    }

    // The next lost column, in order; false if there are no more.
    method GetNextLossColumn() returns (ok: bool, column: nat)
      requires Valid()
      modifies this`Offset, this`LossColumn, this`LossCount, this`NextLoss, this`Position
      ensures Valid() && (ok <==> old(Remaining()) != [])
      ensures ok ==> column == Wrap(old(Remaining())[0]) && Remaining() == old(Remaining())[1..]
      ensures !ok ==> Remaining() == []
    {
      hide *;
      column := 0;
      if LossCount == 0 {
        ok := PassRange();
        if !ok {
          return;
        }
      }
      column := TakeLoss();
      ok := true;
    }

    method TakeLoss() returns (column: nat)
      requires Valid() && LossCount > 0
      modifies this`LossColumn, this`LossCount, this`NextLoss
      ensures Valid() && old(Remaining()) != [] && column == Wrap(old(Remaining())[0]) && Remaining() == old(Remaining())[1..]
    {
      hide Wrap, Encoded, Padding, Expand, AllEncodable;
      column := LossColumn;
      assert Run(NextLoss, LossCount) == [NextLoss] + Run(NextLoss + 1, LossCount - 1);
      AddWrapped(1, NextLoss);
      LossColumn := AddColumns(LossColumn, 1);
      NextLoss := NextLoss + 1;
      LossCount := LossCount - 1;
    }

    // The ranges count from one past the end of the range before.
    method PassRange() returns (ok: bool)
      requires Valid() && LossCount == 0
      modifies this`Offset, this`LossColumn, this`LossCount, this`NextLoss, this`Position
      ensures Valid() && (ok <==> old(Remaining()) != [])
      ensures if ok then LossCount > 0 && Remaining() == old(Remaining()) else Remaining() == []
    {
      hide *;
      PositionWithin();
      RemainingBetween();
      ghost var from_, position := NextLoss + 1, Position;
      StepPast();
      ExpandFirst(from_, Ranges[position..]);
      ok := DecodeNextRange();
      PositionWithin();
      if ok {
        assert Ranges[position..][1..] == Ranges[Position..] && Ranges[position..][0] == Ranges[position];
        RemainingIs();
      } else {
        RemainingBetween();
      }
    }

    method StepPast()
      requires Valid()
      modifies this`LossColumn, this`NextLoss
      ensures Valid() && NextLoss == old(NextLoss) + 1
    {
      hide Wrap, Encoded, Padding, AllEncodable;
      AddWrapped(1, NextLoss);
      LossColumn := AddColumns(LossColumn, 1);
      NextLoss := NextLoss + 1;
    }

    lemma PositionWithin()
      requires Valid()
      ensures Position <= |Ranges|
    {
      hide Encoded, Padding, AllEncodable;
    }

    lemma RemainingIs()
      requires Position <= |Ranges|
      ensures Remaining() == Run(NextLoss, LossCount) + Expand(NextLoss + LossCount + 1, Ranges[Position..])
    {
      hide Run, Expand;
    }

    lemma RemainingBetween()
      requires Position <= |Ranges| && LossCount == 0
      ensures Remaining() == Expand(NextLoss + 1, Ranges[Position..])
      ensures Position == |Ranges| ==> Remaining() == []
    {
      assert Run(NextLoss, 0) == [];
    }

    // Starts over with the first loss listed.
    method RestartLossIterator()
      requires Valid()
      modifies this`Offset, this`LossColumn, this`LossCount, this`NextLoss, this`Position
      ensures Valid() && Remaining() == Expand(NextExpected, Ranges)
    {
      hide *;
      Rewind();
      ExpandFirst(NextExpected, Ranges);
      var ok := DecodeNextRange();
      PositionWithin();
      if ok {
        RemainingIs();
      } else {
        NothingRemains();
      }
    }

    method Rewind()
      requires Valid()
      modifies this`Offset, this`LossColumn, this`LossCount, this`NextLoss, this`Position
      ensures Valid() && NextLoss == NextExpected && Position == 0 && LossCount == 0
    {
      hide Wrap, Padding;
      Offset, LossColumn, LossCount := 0, NextColumnExpected, 0;
      NextLoss, Position := NextExpected, 0;
      assert Ranges[..0] == [];
    }

    lemma NothingRemains()
      requires Ranges == [] && Position == 0 && LossCount == 0
      ensures Remaining() == []
    {}

    // Takes in an acknowledgement unless it is older than the last one.
    method OnAcknowledgementData(data: Bytes, ghost next: nat, ghost ranges: seq<LossRange>)
      requires Valid() && TheWindow.Valid() && NextExpected <= TheWindow.FirstUnremoved() && AllEncodable(ranges)
      requires data == SerializeHeaderPacketNum(Wrap(next)) + Encoded(ranges) && next <= |TheWindow.History|
      requires next < NextExpected + COLUMN_PERIOD / 2 && NextExpected <= next + COLUMN_PERIOD / 2
      requires TheWindow.Count > 0 ==> TheWindow.Base <= next + COLUMN_PERIOD / 2
      modifies this, TheWindow`FirstUnremovedElement, TheWindow`Count, TheWindow`Originals
      ensures Valid() && TheWindow.Valid()
      ensures next < old(NextExpected) ==> NextExpected == old(NextExpected) && Ranges == old(Ranges)
      ensures next >= old(NextExpected) ==> NextExpected == next && Ranges == ranges
      ensures if next < old(NextExpected) || (next == old(NextExpected) && ranges == old(Ranges) && old(Data) != []) then Remaining() == old(Remaining())
              else Remaining() == Expand(next, ranges)
      ensures TheWindow.FirstUnremoved() == if next < old(TheWindow.FirstUnremoved()) then old(TheWindow.FirstUnremoved()) else next
    {
      hide Wrap, Padding, Encoded, RangeEncodable, SerializeHeaderPacketNum, DeserializeHeaderPacketNum, AllDirect, LaneShape;
      HeaderPacketNumRoundTrip(Wrap(next), Encoded(ranges));
      var header := DeserializeHeaderPacketNum(data);
      var rest := data[header.bytes..];
      assert rest == Encoded(ranges);
      ColumnDelta(next);
      if IsColumnDeltaNegative(SubtractColumns(header.value, NextColumnExpected)) {
        return;
      }
      if NextColumnExpected == header.value && Data != [] && |rest| == DataBytes && rest == Data[..DataBytes] {
        SameAcknowledgement(next, ranges);
        return;
      }
      TakeAcknowledgement(header.value, rest, next, ranges);
      RemoveAcknowledged(next);
    }

    lemma ColumnDelta(next: nat)
      requires Valid() && next < NextExpected + COLUMN_PERIOD / 2 && NextExpected <= next + COLUMN_PERIOD / 2
      ensures IsColumnDeltaNegative(SubtractColumns(Wrap(next), NextColumnExpected)) <==> next < NextExpected
      ensures Wrap(next) == NextColumnExpected ==> next == NextExpected
    {
      hide Wrap, Encoded;
      if next < NextExpected {
        SubtractBehind(next, NextExpected);
        SubtractWrapped(NextExpected, NextExpected);
      } else {
        SubtractWrapped(next, NextExpected);
        SubtractWrapped(NextExpected, NextExpected);
      }
    }

    lemma SameAcknowledgement(next: nat, ranges: seq<LossRange>)
      requires Valid() && AllEncodable(ranges) && |Encoded(ranges)| == DataBytes <= |Data| && Encoded(ranges) == Data[..DataBytes]
      ensures ranges == Ranges
    {
      hide Wrap, Encoded, RangeEncodable;
      if DataBytes > 0 {
        assert Data[..DataBytes] == Encoded(Ranges);
      } else {
        assert Encoded(Ranges) == [];
      }
      EncodedInjective(ranges, Ranges);
    }

    method TakeAcknowledgement(nextColumnExpected: nat, rest: Bytes, ghost next: nat, ghost ranges: seq<LossRange>)
      requires Valid() && AllEncodable(ranges) && rest == Encoded(ranges) && nextColumnExpected == Wrap(next)
      modifies this
      ensures Valid() && NextExpected == next && Ranges == ranges && NextColumnExpected == Wrap(next)
      ensures Remaining() == Expand(next, ranges)
    {
      hide Wrap, Padding, Encoded, AllEncodable, Expand, Run;
      FirstRange(ranges);
      NoneEncoded();
      ExpandFirst(next, ranges);
      NextColumnExpected := nextColumnExpected;
      Offset, LossColumn, LossCount, DataBytes := 0, NextColumnExpected, 0, |rest|;
      NextExpected, NextLoss, Ranges, Position := next, next, ranges, 0;
      assert Ranges[..0] == [];
      if |rest| > 0 {
        Data := rest + Padding();
        var ok := DecodeNextRange();
        RemainingIs();
      } else {
        NothingRemains();
      }
    }

    lemma NoneEncoded()
      ensures AllEncodable([]) && Encoded([]) == []
    {}

    method RemoveAcknowledged(ghost next: nat)
      requires TheWindow.Valid() && NextColumnExpected == Wrap(next) && next <= |TheWindow.History|
      requires TheWindow.Count > 0 ==> TheWindow.Base <= next + COLUMN_PERIOD / 2
      modifies TheWindow`FirstUnremovedElement, TheWindow`Count, TheWindow`Originals
      ensures TheWindow.Valid()
      ensures TheWindow.FirstUnremoved() == if next < old(TheWindow.FirstUnremoved()) then old(TheWindow.FirstUnremoved()) else next
    {
      hide AllDirect, LaneShape, Wrap;
      if TheWindow.Count > 0 {
        TheWindow.RemovesUpTo(next);
      }
      TheWindow.RemoveBefore(NextColumnExpected);
    }
  }

  // The losses an acknowledgement leads the encoder through are the receiver's,
  // in order, followed by the packet just past its window if the last one there
  // was received; a prefix of that list if the acknowledgement had no more room.
  lemma LossesRoundTrip(ack: EncoderAcknowledgementState, received: set<nat>, end: nat, ranges: seq<LossRange>, full: bool)
    requires ack.Valid() && ack.Ranges == ranges && Acknowledges(received, ack.NextExpected, end, ranges, full)
    requires forall a: nat :: a < ack.NextExpected ==> a in received
    requires ack.NextExpected < end
    ensures var losses := Losses.Lost(received, end) + (if end - 1 in received then [end] else []);
            && Expand(ack.NextExpected, ack.Ranges) <= losses
            && (!full ==> Expand(ack.NextExpected, ack.Ranges) == losses)
  {
    hide Encoded, Wrap, Padding, Expand, Losses.Lost, LostFrom;
    var next := ack.NextExpected;
    Losses.NothingLostBefore(received, next);
    LostFromIsLost(received, next, end);
    assert [] + LostFrom(received, next, end) == LostFrom(received, next, end);
  }
}
