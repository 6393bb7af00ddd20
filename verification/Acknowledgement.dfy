// Acknowledgements: the decoder lists what it has lost as ranges, the encoder
// steps through them packet by packet.
module Acknowledgement {
  import opened Columns
  import opened Gf256
  import opened DecoderSums
  import opened Losses
  import opened DecoderWindow
  import opened EncoderWindow
  import opened Serializers

  const ACK_MIN_BYTES: nat := 16
  const PADDING_BYTES: nat := 8

  // ---- the ranges and the packets they stand for ----

  // Packets a, a + 1, .. a + n - 1.
  ghost function Run(a: nat, n: nat): (r: seq<nat>)
    ensures |r| == n
  {
    seq(n, i requires 0 <= i < n => a + i)
  }

  // The next range counts from one past the packet that ended the last one.
  ghost function Expand(from_: nat, ranges: seq<LossRange>): seq<nat>
    decreases |ranges|
  {
    if |ranges| == 0 then []
    else
      var start, n := from_ + ranges[0].relativeStart, ranges[0].lossCountM1 + 1;
      Run(start, n) + Expand(start + n + 1, ranges[1..])
  }

  // The packet after the last of the first k ranges, plus one.
  ghost function After(from_: nat, ranges: seq<LossRange>): nat
    decreases |ranges|
  {
    if |ranges| == 0 then from_
    else After(from_ + ranges[0].relativeStart + ranges[0].lossCountM1 + 2, ranges[1..])
  }

  lemma {:induction false} ExpandSnoc(from_: nat, ranges: seq<LossRange>, r: LossRange)
    ensures Expand(from_, ranges + [r]) == Expand(from_, ranges) + Run(After(from_, ranges) + r.relativeStart, r.lossCountM1 + 1)
    ensures After(from_, ranges + [r]) == After(from_, ranges) + r.relativeStart + r.lossCountM1 + 2
    decreases |ranges|
  {
    if |ranges| == 0 {
      assert ranges + [r] == [r] && [r][1..] == [];
    } else {
      ExpandSnoc(from_ + ranges[0].relativeStart + ranges[0].lossCountM1 + 2, ranges[1..], r);
      assert (ranges + [r])[1..] == ranges[1..] + [r];
    }
  }

  lemma {:induction false} ExpandPrefix(from_: nat, ranges: seq<LossRange>, k: nat)
    requires k <= |ranges|
    ensures Expand(from_, ranges[..k]) <= Expand(from_, ranges)
    decreases |ranges|
  {
    if k > 0 {
      ExpandPrefix(from_ + ranges[0].relativeStart + ranges[0].lossCountM1 + 2, ranges[1..], k - 1);
      assert ranges[..k][1..] == ranges[1..][..k - 1];
    }
  }

  // The lost packets among those from a on, before `end`.
  ghost function LostFrom(received: set<nat>, a: nat, end: nat): seq<nat>
    decreases end - a
  {
    if end <= a then [] else (if a in received then [] else [a]) + LostFrom(received, a + 1, end)
  }

  lemma {:induction false} SkipReceived(received: set<nat>, a: nat, b: nat, end: nat)
    requires a <= b <= end && forall c :: a <= c < b ==> c in received
    ensures LostFrom(received, a, end) == LostFrom(received, b, end)
    decreases b - a
  {
    if a < b {
      SkipReceived(received, a + 1, b, end);
    }
  }

  lemma {:induction false} RunLost(received: set<nat>, a: nat, b: nat, end: nat)
    requires a <= b <= end && forall c :: a <= c < b ==> c !in received
    ensures LostFrom(received, a, end) == Run(a, b - a) + LostFrom(received, b, end)
    decreases b - a
  {
    if a < b {
      RunLost(received, a + 1, b, end);
      assert Run(a, b - a) == [a] + Run(a + 1, b - a - 1);
    } else {
      assert Run(a, 0) == [];
    }
  }

  // It is the list of losses the decoder's matrix columns are made of.
  lemma {:induction false} LostFromIsLost(received: set<nat>, a: nat, end: nat)
    requires a <= end
    ensures Lost(received, a) + LostFrom(received, a, end) == Lost(received, end)
    decreases end - a
  {
    if a < end {
      LostFromIsLost(received, a + 1, end);
      var one := if a in received then [] else [a];
      assert Lost(received, a + 1) == Lost(received, a) + one;
      assert Lost(received, a) + (one + LostFrom(received, a + 1, end)) == Lost(received, a) + one + LostFrom(received, a + 1, end);
    }
  }

  // ---- the bytes ----

  ghost predicate AllEncodable(ranges: seq<LossRange>) {
    forall r :: r in ranges ==> RangeEncodable(r)
  }

  ghost function Encoded(ranges: seq<LossRange>): (b: Bytes)
    requires AllEncodable(ranges)
  {
    if |ranges| == 0 then [] else SerializeHeaderNACKLossRange(ranges[0]) + Encoded(ranges[1..])
  }

  lemma {:induction false} EncodedSnoc(ranges: seq<LossRange>, r: LossRange)
    requires RangeEncodable(r) && AllEncodable(ranges)
    ensures AllEncodable(ranges + [r])
    ensures Encoded(ranges + [r]) == Encoded(ranges) + SerializeHeaderNACKLossRange(r)
  {
    hide SerializeHeaderNACKLossRange;
    if |ranges| == 0 {
      assert ranges + [r] == [r] && [r][1..] == [];
    } else {
      EncodedSnoc(ranges[1..], r);
      assert (ranges + [r])[1..] == ranges[1..] + [r];
    }
  }

  // ---- the decoder's side ----

  // All losses from the first on, then the packet just past the window if the
  // last of the window was received.
  ghost function Missed(received: set<nat>, first: nat, end: nat): seq<nat>
    requires first < end
  {
    LostFrom(received, first, end) + (if end - 1 in received then [end] else [])
  }

  // The ranges list all that was missed, or the first part if there was no room.
  ghost predicate Acknowledges(received: set<nat>, first: nat, end: nat, ranges: seq<LossRange>, full: bool) {
    if first >= end then ranges == []
    else
      && Expand(first, ranges) <= Missed(received, first, end)
      && (!full ==> Expand(first, ranges) == Missed(received, first, end))
  }

  // The ranges so far cover the losses before element `offset` of the window.
  ghost predicate Listing(received: set<nat>, first: nat, end: nat, ranges: seq<LossRange>, next: nat) {
    && first < end && next <= end + 1 && After(first, ranges) == next
    && Expand(first, ranges) + LostFrom(received, next, end) == LostFrom(received, first, end)
    && (next == end ==> end - 1 in received) && (next == end + 1 ==> end - 1 !in received)
  }

  lemma AddRange(received: set<nat>, first: nat, end: nat, ranges: seq<LossRange>, next: nat, start: nat, stop: nat)
    requires Listing(received, first, end, ranges, next) && next <= start < stop <= end
    requires forall a :: next <= a < start ==> a in received
    requires forall a :: start <= a < stop ==> a !in received
    requires stop < end ==> stop in received
    ensures Listing(received, first, end, ranges + [LossRange(start - next, stop - start - 1)], stop + 1)
  {
    hide Expand, After, LostFrom, Run;
    var range := LossRange(start - next, stop - start - 1);
    ExpandSnoc(first, ranges, range);
    SkipReceived(received, next, start, end);
    RunLost(received, start, stop, end);
    OneMore(received, stop, end);
    var e, r, l := Expand(first, ranges), Run(start, stop - start), LostFrom(received, stop + 1, end);
    assert e + (r + l) == e + r + l;
  }

  lemma OneMore(received: set<nat>, stop: nat, end: nat)
    requires stop < end ==> stop in received
    ensures LostFrom(received, stop, end) == LostFrom(received, stop + 1, end)
  {}

  lemma AddTail(received: set<nat>, first: nat, end: nat, ranges: seq<LossRange>, next: nat)
    requires Listing(received, first, end, ranges, next) && next <= end
    requires forall a :: next <= a < end ==> a in received
    ensures Expand(first, ranges + [LossRange(end - next, 0)]) == Missed(received, first, end)
  {
    ExpandSnoc(first, ranges, LossRange(end - next, 0));
    SkipReceived(received, next, end, end);
    assert Run(end, 1) == [end];
    assert Expand(first, ranges) + [] == Expand(first, ranges);
  }

  lemma NoTail(received: set<nat>, first: nat, end: nat, ranges: seq<LossRange>, next: nat)
    requires Listing(received, first, end, ranges, next)
    ensures Expand(first, ranges) <= Missed(received, first, end)
    ensures next == end + 1 ==> Expand(first, ranges) == Missed(received, first, end)
  {}

  // Lists the losses of the window from the next expected packet on, then the
  // packet just past the window, as far as there is room.
  method GenerateAcknowledgement(w: DecoderPacketWindow, byteLimit: nat)
    returns (ok: bool, buffer: Bytes, ghost ranges: seq<LossRange>)
    requires w.WindowValid() && w.NextValid() && byteLimit >= ACK_MIN_BYTES
    ensures ok <==> w.Count > 0
    ensures ok ==> AllEncodable(ranges) && |buffer| <= byteLimit
    ensures ok ==> buffer == SerializeHeaderPacketNum(Wrap(w.Base + w.NextExpectedElement)) + Encoded(ranges)
    ensures ok ==> Acknowledges(w.Received, w.Base + w.NextExpectedElement, w.Base + w.Count, ranges, byteLimit < |buffer| + MAX_LOSS_RANGE_FIELD_BYTES)
  {
    hide Wrap, SerializeHeaderPacketNum, SerializeHeaderNACKLossRange, Listing, Missed, LostFrom, Expand, AllEncodable, Encoded,
            DecoderPacketWindow.WindowValid, DecoderPacketWindow.NextValid;
    buffer, ranges := [], [];
    EmptyEncoded();
    WindowSmall(w);
    if w.Count == 0 {
      return false, [], [];
    }
    ok := true;
    var nextElementExpected := w.NextExpectedElement;
    AddWrapped(nextElementExpected, w.Base);
    buffer := SerializeHeaderPacketNum(AddColumns(nextElementExpected, w.ColumnStart));
    if nextElementExpected >= w.Count {
      return;
    }
    ghost var header, first, end := buffer, w.Base + nextElementExpected, w.Base + w.Count;
    var rangeOffset := nextElementExpected;
    StartListing(w.Received, first, end);
    while byteLimit >= |buffer| + MAX_LOSS_RANGE_FIELD_BYTES
      invariant nextElementExpected <= rangeOffset <= w.Count + 1 && |buffer| <= byteLimit
      invariant AllEncodable(ranges) && buffer == header + Encoded(ranges)
      invariant Listing(w.Received, first, end, ranges, w.Base + rangeOffset)
      decreases w.Count + 1 - rangeOffset
    {
      var rangeStart := w.FindNextLostElement(rangeOffset);
      NoTail(w.Received, first, end, ranges, w.Base + rangeOffset);
      if rangeStart >= w.Count {
        if w.Count >= rangeOffset {
          AddTail(w.Received, first, end, ranges, w.Base + rangeOffset);
          buffer, ranges := Append(buffer, header, ranges, LossRange(w.Count - rangeOffset, 0));
        }
        return;
      }
      var rangeEnd := w.FindNextGotElement(rangeStart + 1);
      AddRange(w.Received, first, end, ranges, w.Base + rangeOffset, w.Base + rangeStart, w.Base + rangeEnd);
      buffer, ranges := Append(buffer, header, ranges, LossRange(rangeStart - rangeOffset, rangeEnd - rangeStart - 1));
      rangeOffset := rangeEnd + 1;
    }
    NoTail(w.Received, first, end, ranges, w.Base + rangeOffset);
  }

  method Append(buffer: Bytes, ghost header: Bytes, ghost ranges: seq<LossRange>, range: LossRange) returns (b: Bytes, ghost more: seq<LossRange>)
    requires RangeEncodable(range) && AllEncodable(ranges) && buffer == header + Encoded(ranges)
    ensures more == ranges + [range] && AllEncodable(more)
    ensures b == header + Encoded(more) && |b| <= |buffer| + MAX_LOSS_RANGE_FIELD_BYTES
  {
    hide SerializeHeaderNACKLossRange;
    EncodedSnoc(ranges, range);
    b, more := buffer + SerializeHeaderNACKLossRange(range), ranges + [range];
    assert header + (Encoded(ranges) + SerializeHeaderNACKLossRange(range)) == b;
  }

  lemma EmptyEncoded()
    ensures AllEncodable([]) && Encoded([]) == []
  {}

  lemma WindowSmall(w: DecoderPacketWindow)
    requires w.WindowValid() && w.NextValid()
    ensures w.Count < COLUMN_PERIOD && w.NextExpectedElement <= w.Count && w.ColumnStart == Wrap(w.Base)
  {
    hide Wrap;
  }

  lemma StartListing(received: set<nat>, first: nat, end: nat)
    requires first < end
    ensures Listing(received, first, end, [], first)
  {}
}
