// An encoder and a decoder joined by a channel that may lose, repeat and reorder
// whatever is sent. A message once sent stays available for delivery, any
// number of times; what is never delivered is lost.
module Session {
  import opened Collections
  import opened Columns
  import opened Gf256
  import opened LinearAlgebra
  import opened Coefficients
  import opened EncoderWindow
  import opened Serializers
  import opened Acknowledgement
  import opened EncoderAcknowledgement
  import opened SentPackets
  import R = Regions
  import E = Encoder
  import D = Decoder
  import opened DecoderSums
  import opened DecoderWindow

  // A recovery packet; `rest` is what its payload holds but for the one position of the
  // packets that is modelled.
  datatype Repair = Repair(packet: E.RecoveryPacket, start: nat, rest: Bytes)

  // ... which are sent with the metadata behind them.
  function BytesOf(p: Repair): Bytes {
    p.rest + (if Encodable(p.packet.metadata) then SerializeFooterRecoveryMetadata(p.packet.metadata) else [])
  }

  datatype Reply = Reply(bytes: Bytes, next: nat, ranges: seq<LossRange>)

  // The packet after the last one a recovery packet covers, and the first one of
  // its light range.
  ghost function EndOf(p: Repair): nat {
    p.start + p.packet.metadata.sumCount
  }

  ghost function LightOf(p: Repair): int {
    EndOf(p) - p.packet.metadata.ldpcCount
  }

  // The receiver has everything the sender has let go of, and everything
  // recovery packets and replies on their way take for received.
  ghost predicate Safe(sent: nat, kept: nat, received: set<nat>, originals: set<nat>, repairs: set<Repair>, replies: set<Reply>) {
    && kept <= sent
    && (forall a: nat :: a < kept ==> a in received)
    && (forall a :: a in received ==> a < sent)
    && (forall a :: a in originals ==> a < sent)
    && (forall p, a: nat :: p in repairs && a < LightOf(p) ==> a in received)
    && (forall p :: p in repairs ==> EndOf(p) <= sent)
    && (forall r, a: nat :: r in replies && a < r.next ==> a in received)
    && (forall r :: r in replies ==> r.next <= sent)
  }

  // The encoder made the packet when it had been given the packets up to its end.
  ghost predicate Made(p: Repair, raw: Draws, h: seq<Gf>) {
    EndOf(p) <= |h| && E.Encodes(p.packet, raw, h[..EndOf(p)], p.start)
  }

  ghost predicate Written(r: Reply) {
    AllEncodable(r.ranges) && r.bytes == SerializeHeaderPacketNum(Wrap(r.next)) + Encoded(r.ranges)
  }

  lemma SafeSend(sent: nat, kept: nat, received: set<nat>, originals: set<nat>, repairs: set<Repair>, replies: set<Reply>)
    requires Safe(sent, kept, received, originals, repairs, replies)
    ensures Safe(sent + 1, kept, received, originals + {sent}, repairs, replies)
  {}

  lemma SafeRepair(sent: nat, kept: nat, received: set<nat>, originals: set<nat>, repairs: set<Repair>, replies: set<Reply>, p: Repair)
    requires Safe(sent, kept, received, originals, repairs, replies) && LightOf(p) <= kept && EndOf(p) <= sent
    ensures Safe(sent, kept, received, originals, repairs + {p}, replies)
  {}

  lemma SafeReceive(sent: nat, kept: nat, received: set<nat>, more: set<nat>, originals: set<nat>, repairs: set<Repair>, replies: set<Reply>)
    requires Safe(sent, kept, received, originals, repairs, replies) && received <= more && forall a :: a in more ==> a < sent
    ensures Safe(sent, kept, more, originals, repairs, replies)
  {}

  lemma SafeReply(sent: nat, kept: nat, received: set<nat>, originals: set<nat>, repairs: set<Repair>, replies: set<Reply>, r: Reply)
    requires Safe(sent, kept, received, originals, repairs, replies) && r.next <= sent && forall a: nat :: a < r.next ==> a in received
    ensures Safe(sent, kept, received, originals, repairs, replies + {r})
  {}

  lemma SafeAcknowledge(sent: nat, kept: nat, received: set<nat>, originals: set<nat>, repairs: set<Repair>, replies: set<Reply>, r: Reply)
    requires Safe(sent, kept, received, originals, repairs, replies) && r in replies
    ensures Safe(sent, if r.next < kept then kept else r.next, received, originals, repairs, replies)
  {}

  lemma MadeLater(p: Repair, raw: Draws, h: seq<Gf>, later: seq<Gf>)
    requires Made(p, raw, h) && h <= later
    ensures Made(p, raw, later)
  {
    hide E.Encodes;
    assert later[..EndOf(p)] == h[..EndOf(p)];
  }

  // What the packet carries is also its row applied to the whole history.
  lemma CarriesHistory(p: Repair, raw: Draws, h: seq<Gf>, history: seq<Gf>)
    requires Made(p, raw, h) && h <= history
    ensures ValidMetadata(p.packet.metadata) && Wrap(p.start) == p.packet.metadata.columnStart && EndOf(p) <= |history|
    ensures p.packet.metadata.sumCount == 1 ==> p.packet.metadata.row == 0
    ensures p.packet.payload == Dot(CoefficientRow(raw, p.packet.metadata), history[p.start..p.start + p.packet.metadata.sumCount])
  {
    hide Dot, CoefficientRow, Wrap;
    assert h[..EndOf(p)][p.start..] == history[p.start..EndOf(p)];
  }

  class Session {
    const Raw: Draws
    const Sender: E.Encoder
    const Acks: EncoderAcknowledgementState
    const Receiver: D.Decoder
    ghost var Originals: set<nat>
    ghost var Repairs: set<Repair>
    ghost var Replies: set<Reply>

    ghost predicate SenderValid()
      reads Sender, Sender.Window, Acks
    {
      && Sender.Valid() && Acks.Valid() && Acks.TheWindow == Sender.Window
      && Acks.NextExpected == Sender.Window.FirstUnremoved()
    }

    // What the sender has been given is the beginning of the receiver's history.
    ghost predicate Joined()
      reads Sender, Sender.Window`History, Receiver.Window`History, Receiver.Window`Base, Receiver.Window`Count, Receiver`EmergencyDisabled
    {
      && Receiver.Raw == Raw && Sender.Window.History <= Receiver.Window.History
      && (!Receiver.EmergencyDisabled ==> Receiver.Window.Base + Receiver.Window.Count <= |Sender.Window.History|)
    }

    ghost predicate ChannelValid()
      reads this, Sender, Sender.Window`History
    {
      && (forall p :: p in Repairs ==> Made(p, Raw, Sender.Window.History))
      && (forall r :: r in Replies ==> Written(r))
    }

    ghost predicate InStep()
      reads this, Sender, Sender.Window, Receiver.Window`Received
    {
      Safe(|Sender.Window.History|, Sender.Window.FirstUnremoved(), Receiver.Window.Received, Originals, Repairs, Replies)
    }

    ghost predicate Valid()
      reads this, Sender, Sender.Window, Acks, Receiver, Receiver.Window, Receiver.Matrix
    {
      SenderValid() && Receiver.Valid() && Joined() && ChannelValid() && InStep()
    }

    // `history` is everything that will ever be sent.
    constructor (raw: Draws, ghost history: seq<Gf>)
      ensures Valid() && Raw == raw && Receiver.Window.History == history && Sender.Window.History == []
    {
      hide *;
      var encoder := new E.Encoder();
      var decoder := new D.Decoder(raw, history);
      var acks := new EncoderAcknowledgementState(encoder.Window);
      Raw, Sender, Acks, Receiver := raw, encoder, acks, decoder;
      Originals, Repairs, Replies := {}, {}, {};
      new;
      Begin();
    }

    lemma Begin()
      requires Sender.Valid() && Acks.Valid() && Acks.TheWindow == Sender.Window && Acks.NextExpected == 0
      requires Receiver.Valid() && Receiver.Raw == Raw && Sender.Window.History == [] && Sender.Window.Count == 0
      requires Receiver.Window.Count == 0 && Receiver.Window.Base == 0 && Receiver.Window.Received == {}
      requires Originals == {} && Repairs == {} && Replies == {}
      ensures Valid()
    {}

    // In every state: what was lost is still held by the sender, and no recovery
    // packet on its way has lost packets before its light range.
    lemma LostIsHeld(a: nat)
      requires Valid() && a < |Sender.Window.History| && a !in Receiver.Window.Received
      ensures Sender.Window.FirstUnremoved() <= a
      ensures Sender.Window.Count > 0 && Sender.Window.Base + Sender.Window.FirstUnremovedElement <= a < Sender.Window.Base + Sender.Window.Count
      ensures forall p :: p in Repairs ==> LightOf(p) <= a
    {
      hide Made, Written, AllDirect, LaneShape, Wrap;
    }

    lemma Parts()
      requires Valid()
      ensures SenderValid() && Receiver.Valid() && Joined() && ChannelValid() && InStep()
    {
      hide SenderValid, Joined, ChannelValid, InStep;
    }

    lemma Whole()
      requires SenderValid() && Receiver.Valid() && Joined() && ChannelValid() && InStep()
      ensures Valid()
    {
      hide SenderValid, Joined, ChannelValid, InStep;
    }

    lemma SenderParts()
      requires SenderValid()
      ensures Sender.Valid() && Sender.Window.Valid() && Acks.Valid() && Acks.TheWindow == Sender.Window
      ensures Acks.NextExpected == Sender.Window.FirstUnremoved() && Counted(Sender.Log, Sender.NextRow, Sender.NextCauchyRow, Sender.NextParityColumn, |Sender.Window.History|)
    {
      hide AllDirect, LaneShape, AllEncodable, Encoded, Padding, Counted;
    }

    lemma SenderWhole()
      requires Sender.Window.Valid() && Counted(Sender.Log, Sender.NextRow, Sender.NextCauchyRow, Sender.NextParityColumn, |Sender.Window.History|)
      requires Acks.Valid() && Acks.TheWindow == Sender.Window && Acks.NextExpected == Sender.Window.FirstUnremoved()
      ensures SenderValid()
    {
      hide AllDirect, LaneShape, AllEncodable, Encoded, Padding, Counted;
    }

    lemma StepParts()
      requires InStep()
      ensures Safe(|Sender.Window.History|, Sender.Window.FirstUnremoved(), Receiver.Window.Received, Originals, Repairs, Replies)
    {
      hide Safe;
    }

    lemma StepWhole()
      requires Safe(|Sender.Window.History|, Sender.Window.FirstUnremoved(), Receiver.Window.Received, Originals, Repairs, Replies)
      ensures InStep()
    {
      hide Safe;
    }

    lemma JoinedParts()
      requires Joined()
      ensures Receiver.Raw == Raw && Sender.Window.History <= Receiver.Window.History
      ensures !Receiver.EmergencyDisabled ==> Receiver.Window.Base + Receiver.Window.Count <= |Sender.Window.History|
    {}

    lemma JoinedWhole()
      requires Receiver.Raw == Raw && Sender.Window.History <= Receiver.Window.History
      requires !Receiver.EmergencyDisabled ==> Receiver.Window.Base + Receiver.Window.Count <= |Sender.Window.History|
      ensures Joined()
    {}

    lemma ChannelGrown(h: seq<Gf>, repairs: set<Repair>)
      requires (forall p :: p in repairs ==> Made(p, Raw, h)) && h <= Sender.Window.History
      ensures forall p :: p in repairs ==> Made(p, Raw, Sender.Window.History)
    {
      hide Made;
      forall p | p in repairs ensures Made(p, Raw, Sender.Window.History) {
        MadeLater(p, Raw, h, Sender.Window.History);
      }
    }

    lemma ChannelParts()
      requires ChannelValid()
      ensures forall p :: p in Repairs ==> Made(p, Raw, Sender.Window.History)
      ensures forall r :: r in Replies ==> Written(r)
    {
      hide Made, Written;
    }

    lemma ChannelWhole()
      requires (forall p :: p in Repairs ==> Made(p, Raw, Sender.Window.History)) && forall r :: r in Replies ==> Written(r)
      ensures ChannelValid()
    {
      hide Made, Written;
    }

    // The sender is given the next packet and sends it.
    method Send(value: Gf) returns (ok: bool, packetNum: nat)
      requires Valid() && |Sender.Window.History| < |Receiver.Window.History| && value == Receiver.Window.History[|Sender.Window.History|]
      modifies Sender.Window, this`Originals
      ensures Valid() && (ok <==> old(Sender.Window.Count) < MAX_PACKETS)
      ensures ok ==>
                && Sender.Window.History == old(Sender.Window.History) + [value] && packetNum == Wrap(|old(Sender.Window.History)|)
                && Originals == old(Originals) + {|old(Sender.Window.History)|}
    {
      hide *;
      Parts();
      SenderParts();
      StepParts();
      JoinedParts();
      ChannelParts();
      ghost var h := Sender.Window.History;
      ok, packetNum := Sender.Window.Add(value);
      CountedLater(Sender.Log, Sender.NextRow, Sender.NextCauchyRow, Sender.NextParityColumn, |h|, |Sender.Window.History|);
      if ok {
        SafeSend(|h|, Sender.Window.FirstUnremoved(), Receiver.Window.Received, Originals, Repairs, Replies);
        Originals := Originals + {|h|};
      }
      SenderWhole();
      StepWhole();
      JoinedWhole();
      ChannelGrown(h, Repairs);
      ChannelWhole();
      Whole();
    }

    // The sender sends a recovery packet, if it has anything to protect.
    method SendRepair(rest: Bytes) returns (sent: bool, bytes: Bytes, payload: Gf)
      requires Valid()
      modifies Sender, Sender.Window, this`Repairs
      ensures Valid() && Sender.Window.History == old(Sender.Window.History) && Sender.Window.FirstUnremoved() == old(Sender.Window.FirstUnremoved())
      ensures sent <==> old(Sender.Window.Count) > 0
      ensures if sent then exists p ::
                && Repairs == old(Repairs) + {p} && EndOf(p) == |Sender.Window.History| && LightOf(p) == Sender.Window.FirstUnremoved()
                && bytes == BytesOf(p) && payload == p.packet.payload && Sender.Log == old(Sender.Log) + [Sent(p.packet.metadata, p.start)]
              else Repairs == old(Repairs) && Sender.Log == old(Sender.Log)
    {
      hide *;
      Parts();
      SenderParts();
      StepParts();
      JoinedParts();
      ChannelParts();
      ghost var h := Sender.Window.History;
      var packet;
      ghost var start;
      packet, start := Sender.Encode(Raw);
      EncoderParts();
      sent, bytes, payload := packet.Some?, [], ZERO;
      if sent {
        ghost var p := Repair(packet.value, start, rest);
        NewRepair(p);
        MetadataEncodable(p, Raw, h);
        bytes, payload := rest + SerializeFooterRecoveryMetadata(packet.value.metadata), packet.value.payload;
        SafeRepair(|h|, Sender.Window.FirstUnremoved(), Receiver.Window.Received, Originals, Repairs, Replies, p);
        Repairs := Repairs + {p};
      }
      SenderWhole();
      StepWhole();
      JoinedWhole();
      ChannelWhole();
      Whole();
    }

    lemma EncoderParts()
      requires Sender.Valid()
      ensures Sender.Window.Valid() && Counted(Sender.Log, Sender.NextRow, Sender.NextCauchyRow, Sender.NextParityColumn, |Sender.Window.History|)
    {
      hide AllDirect, LaneShape, Counted;
    }

    lemma MetadataEncodable(p: Repair, raw: Draws, h: seq<Gf>)
      requires Made(p, raw, h)
      ensures Encodable(p.packet.metadata) && BytesOf(p) == p.rest + SerializeFooterRecoveryMetadata(p.packet.metadata)
    {
      hide Dot, CoefficientRow, Wrap, SerializeFooterRecoveryMetadata;
    }

    lemma NewRepair(p: Repair)
      requires E.Encodes(p.packet, Raw, Sender.Window.History, p.start) && Sender.Window.Valid() && Sender.Window.Count > 0
      requires p.packet.metadata.ldpcCount == Sender.Window.Count - Sender.Window.FirstUnremovedElement
      ensures Made(p, Raw, Sender.Window.History) && EndOf(p) == |Sender.Window.History| && LightOf(p) == Sender.Window.FirstUnremoved()
    {
      hide AllDirect, LaneShape, Wrap, CoefficientRow, Dot;
      assert Sender.Window.History[..EndOf(p)] == Sender.Window.History;
    }

    // A message about the packets before `end` is not delayed by half the column
    // period: no more packets than that have been sent since.
    ghost predicate Timely(end: nat)
      reads Sender, Sender.Window`History
    {
      |Sender.Window.History| <= end + COLUMN_PERIOD / 2
    }

    // An original packet arrives in time.
    method DeliverOriginal(packetNum: nat, value: Gf, ghost a: nat) returns (result: D.SiameseResult)
      requires Valid() && a in Originals && packetNum == Wrap(a) && a < |Receiver.Window.History| && value == Receiver.Window.History[a]
      requires Timely(a)
      modifies Receiver, Receiver.Window, Receiver.Matrix
      ensures Valid()
      ensures !Receiver.EmergencyDisabled ==>
                Receiver.Window.Base == old(Receiver.Window.Base) &&
                result == (if a in old(Receiver.Window.Received) || a >= Receiver.Window.Base + COLUMN_PERIOD / 2 then D.DuplicateData else D.Success) &&
                Receiver.Window.Received == if a < Receiver.Window.Base + COLUMN_PERIOD / 2 then old(Receiver.Window.Received) + {a}
                                            else old(Receiver.Window.Received)
    {
      hide *;
      Parts();
      StepParts();
      JoinedParts();
      ChannelParts();
      OriginalSent(a);
      SentNear();
      TimelyIs(a);
      ghost var received := Receiver.Window.Received;
      result := Receiver.AddOriginal(packetNum, value, a);
      SafeReceive(|Sender.Window.History|, Sender.Window.FirstUnremoved(), received, Receiver.Window.Received, Originals, Repairs, Replies);
      StepWhole();
      JoinedWhole();
      Whole();
    }

    lemma OriginalSent(a: nat)
      requires InStep() && a in Originals
      ensures a < |Sender.Window.History| && forall b :: b in Receiver.Window.Received ==> b < |Sender.Window.History|
    {}

    // The two other column numbers the receiver remembers: unless it counts as the
    // last one received in order, the packet does not end half a period past the end
    // of that; and a sum it wants started in the window is told from stopped sums.
    ghost predicate ToldApart(p: Repair)
      reads Receiver, Receiver.Window
    {
      var m := p.packet.metadata;
      Receiver.LastTold(m, p.start) && Receiver.StartTold(m, p.start)
    }

    lemma TimelyIs(end: nat)
      ensures Timely(end) <==> |Sender.Window.History| <= end + COLUMN_PERIOD / 2
    {}

    lemma ToldApartParts(p: Repair)
      requires ToldApart(p)
      ensures Receiver.LastTold(p.packet.metadata, p.start)
      ensures Receiver.StartTold(p.packet.metadata, p.start)
    {}

    lemma InTimeFold(p: Repair)
      requires Receiver.Window.Base + Receiver.Window.Count <= EndOf(p) + COLUMN_PERIOD / 2 && EndOf(p) < Receiver.Window.Base + COLUMN_PERIOD
      ensures Receiver.InTime(p.packet.metadata, p.start)
    {}

    // The sender holds what the receiver has not got: it is never a period ahead of
    // the front of the receiver's window.
    lemma SentNear()
      requires SenderValid() && Receiver.Valid() && Joined() && InStep()
      ensures Sender.Window.FirstUnremoved() <= |Sender.Window.History| <= Sender.Window.FirstUnremoved() + MAX_PACKETS
      ensures Sender.Window.Count > 0 ==> Sender.Window.Base <= Sender.Window.FirstUnremoved()
      ensures !Receiver.EmergencyDisabled ==>
                |Sender.Window.History| < Receiver.Window.Base + COLUMN_PERIOD && Receiver.Window.Base + Receiver.Window.Count <= |Sender.Window.History|
    {
      hide *;
      SenderParts();
      StepParts();
      JoinedParts();
      SenderHolds();
      if !Receiver.EmergencyDisabled {
        ReceiverParts();
        ReceiverBound();
        KeptReceived();
        Periods();
      }
    }

    lemma Periods()
      ensures MAX_PACKETS < COLUMN_PERIOD / 2
    {}

    lemma SenderHolds()
      requires Sender.Window.Valid()
      ensures Sender.Window.FirstUnremoved() <= |Sender.Window.History| <= Sender.Window.FirstUnremoved() + MAX_PACKETS
      ensures Sender.Window.Count > 0 ==> Sender.Window.Base <= Sender.Window.FirstUnremoved()
    {
      hide AllDirect, LaneShape, Wrap;
    }

    lemma ReceiverBound()
      requires Receiver.Window.WindowValid() && Receiver.Window.NextValid()
      ensures Receiver.Window.Count <= COLUMN_PERIOD / 2
      ensures forall a :: a in Receiver.Window.Received ==> a < Receiver.Window.Base + Receiver.Window.Count
    {
      hide Wrap;
    }

    lemma KeptReceived()
      requires InStep() && forall a :: a in Receiver.Window.Received ==> a < Receiver.Window.Base + Receiver.Window.Count
      ensures Sender.Window.FirstUnremoved() <= Receiver.Window.Base + Receiver.Window.Count
    {
      var kept, received := Sender.Window.FirstUnremoved(), Receiver.Window.Received;
      assert kept > 0 ==> kept - 1 in received;
    }

    // As long as no more packets than half the column period have been sent, whatever
    // is on its way arrives in time, however late and in whatever order, and no two
    // packets share a column number.
    lemma AllTimely()
      requires Valid() && |Sender.Window.History| <= COLUMN_PERIOD / 2
      ensures forall a :: Timely(a)
      ensures !Receiver.EmergencyDisabled ==> forall p :: p in Repairs ==> ToldApart(p)
    {
      hide *;
      Parts();
      StepParts();
      JoinedParts();
      HalfSent();
      if !Receiver.EmergencyDisabled {
        StartsSent();
        forall p | p in Repairs ensures ToldApart(p) {
          RepairEnds(p);
          RepairSoon(p);
        }
      }
    }

    lemma HalfSent()
      requires |Sender.Window.History| <= COLUMN_PERIOD / 2
      ensures forall a :: Timely(a)
    {}

    // Nothing starts after what has been sent.
    lemma StartsSent()
      requires Receiver.Valid() && !Receiver.EmergencyDisabled
      requires Receiver.Window.Base + Receiver.Window.Count <= |Sender.Window.History|
      ensures Receiver.Window.SumBase <= |Sender.Window.History|
    {
      hide AllHold, EndsBefore, AllStale, Wrap;
      hide D.Decoder.RowsValid, D.Decoder.RegionValid, D.Decoder.MatrixValid, D.Decoder.LastValid, D.Decoder.OutputValid;
    }

    lemma RepairEnds(p: Repair)
      requires InStep() && p in Repairs
      ensures EndOf(p) <= |Sender.Window.History|
    {}

    lemma RepairSoon(p: Repair)
      requires EndOf(p) <= COLUMN_PERIOD / 2 && Receiver.Window.SumBase <= COLUMN_PERIOD / 2
      ensures ToldApart(p)
    {}

    // The receiver has a use for the packet.
    ghost predicate Wanted(m: Metadata, start: nat)
      reads Receiver, Receiver.Window
    {
      !Receiver.EmergencyDisabled && Receiver.Needed(m, start, Receiver.OutOfOrder(m))
    }

    lemma WantedIs(m: Metadata, start: nat)
      ensures Wanted(m, start) <==> !Receiver.EmergencyDisabled && Receiver.Needed(m, start, Receiver.OutOfOrder(m))
    {}

    // A recovery packet arrives in time.
    // The metadata are read from its footer.
    method DeliverRepair(bytes: Bytes, payload: Gf, ghost p: Repair) returns (result: D.SiameseResult)
      requires Valid() && p in Repairs && bytes == BytesOf(p) && payload == p.packet.payload
      requires Timely(EndOf(p)) && (Receiver.EmergencyDisabled || ToldApart(p))
      modifies Receiver, Receiver.Window, Receiver.Matrix
      ensures Valid()
      ensures var m, start := p.packet.metadata, p.start;
              && D.Joins(old(Wanted(m, start)) && m.sumCount == 1, start,
                     old(Receiver.Window.Received), old(Receiver.Waiting()), Receiver.Window.Received, Receiver.Waiting())
              && (old(Wanted(m, start)) && m.sumCount > 1 ==>
                    Receiver.ListedNow(old(Receiver.Recoveries), R.Placed(m, payload, start, old(Receiver.Window.Base)),
                        old(Receiver.Window.Base), old(Receiver.Region)))
              && (!Receiver.EmergencyDisabled && !old(Wanted(m, start)) ==>
                    R.SamePackets(old(Receiver.Recoveries), old(Receiver.Window.Base), Receiver.Recoveries, Receiver.Window.Base))
    {
      hide *;
      WantedIs(p.packet.metadata, p.start);
      Parts();
      StepParts();
      JoinedParts();
      ChannelParts();
      RepairSent(p);
      SentNear();
      TimelyIs(EndOf(p));
      if !Receiver.EmergencyDisabled {
        ToldApartParts(p);
        InTimeFold(p);
      }
      CarriesHistory(p, Raw, Sender.Window.History, Receiver.Window.History);
      ghost var received := Receiver.Window.Received;
      MetadataEncodable(p, Raw, Sender.Window.History);
      RecoveryMetadataRoundTrip(p.rest, p.packet.metadata);
      var metadata := DeserializeFooterRecoveryMetadata(bytes);
      ghost var one := !Receiver.EmergencyDisabled && metadata.value.sumCount == 1 && Receiver.Needed(metadata.value, p.start, Receiver.OutOfOrder(metadata.value));
      ghost var waiting := Receiver.Waiting();
      result := Receiver.AddRecovery(metadata.value, payload, p.start);
      D.JoinsReceived(one, p.start, received, waiting, Receiver.Window.Received, Receiver.Waiting());
      SafeReceive(|Sender.Window.History|, Sender.Window.FirstUnremoved(), received, Receiver.Window.Received, Originals, Repairs, Replies);
      StepWhole();
      JoinedWhole();
      Whole();
    }

    // The protocol gives the decoder what it relies on.
    lemma RepairSent(p: Repair)
      requires Joined() && ChannelValid() && InStep() && p in Repairs
      ensures Made(p, Raw, Sender.Window.History) && Receiver.Sent(p.packet.metadata, p.start)
      ensures p.start < |Sender.Window.History| && EndOf(p) <= |Sender.Window.History|
      ensures EndOf(p) == p.start + p.packet.metadata.sumCount
      ensures forall b :: b in Receiver.Window.Received ==> b < |Sender.Window.History|
    {
      hide Wrap, CoefficientRow, Dot;
      CarriesHistory(p, Raw, Sender.Window.History, Receiver.Window.History);
    }

    // The receiver recovers what it can. What it reports was sent just so.
    method Decode() returns (result: D.SiameseResult, packets: seq<D.Original>, ghost l: seq<nat>)
      requires Valid()
      modifies Receiver, Receiver.Window, Receiver.Matrix
      ensures Valid() && Sender.Window.History == old(Sender.Window.History)
      ensures result == D.Success ==>
                |packets| == |l| > 0 && forall j :: 0 <= j < |l| ==>
                  l[j] < |Sender.Window.History| && packets[j] == D.Original(Wrap(l[j]), Sender.Window.History[l[j]])
      ensures result == D.NeedMoreData <==>
                !old(Receiver.EmergencyDisabled) && !old(Receiver.HasRecoveredPackets) && !old(Receiver.Recoverable())
      ensures if result == D.Success then
                && Receiver.Given == old(Receiver.Given) + l && !Receiver.HasRecoveredPackets
                && if old(Receiver.HasRecoveredPackets) then l == old(Receiver.RecoveredFrom) && Receiver.Window.Received == old(Receiver.Window.Received)
                   else
                     && l == old(R.LossesOf(Receiver.Recoveries, Receiver.Reached(), Receiver.Window.Received, Receiver.Window.Base))
                     && Receiver.Window.Received == old(Receiver.Window.Received) + Elements(l)
              else
                && Receiver.Given == old(Receiver.Given) && Receiver.Window.Received == old(Receiver.Window.Received)
                && Receiver.Waiting() == old(Receiver.Waiting())
    {
      hide *;
      Parts();
      StepParts();
      JoinedParts();
      ReceivedSent();
      ghost var received, end := Receiver.Window.Received, Receiver.Window.Base + Receiver.Window.Count;
      result, packets, l := Receiver.Decode();
      SafeReceive(|Sender.Window.History|, Sender.Window.FirstUnremoved(), received, Receiver.Window.Received, Originals, Repairs, Replies);
      StepWhole();
      JoinedWhole();
      Whole();
      ReceivedSent();
      forall j | 0 <= j < |l| && result == D.Success
        ensures l[j] < |Sender.Window.History| && packets[j] == D.Original(Wrap(l[j]), Sender.Window.History[l[j]])
      {
        assert l[j] in l;
      }
    }

    lemma ReceivedSent()
      requires InStep()
      ensures forall b :: b in Receiver.Window.Received ==> b < |Sender.Window.History|
    {}

    // The receiver answers with what it has lost.
    method SendReply(byteLimit: nat) returns (ok: bool)
      requires Valid() && !Receiver.EmergencyDisabled && byteLimit >= ACK_MIN_BYTES
      modifies this`Replies
      ensures Valid()
      ensures ok <==> Receiver.Window.Count > 0
      ensures if ok then exists r ::
                && Replies == old(Replies) + {r} && r.next == Receiver.Window.Base + Receiver.Window.NextExpectedElement && |r.bytes| <= byteLimit
                && Acknowledges(Receiver.Window.Received, r.next, Receiver.Window.Base + Receiver.Window.Count, r.ranges,
                       byteLimit < |r.bytes| + MAX_LOSS_RANGE_FIELD_BYTES)
              else Replies == old(Replies)
    {
      hide *;
      Parts();
      StepParts();
      JoinedParts();
      ChannelParts();
      ReceiverParts();
      ghost var ranges;
      var buffer;
      ok, buffer, ranges := GenerateAcknowledgement(Receiver.Window, byteLimit);
      if ok {
        ghost var r := Reply(buffer, Receiver.Window.Base + Receiver.Window.NextExpectedElement, ranges);
        NewReply(r);
        SafeReply(|Sender.Window.History|, Sender.Window.FirstUnremoved(), Receiver.Window.Received, Originals, Repairs, Replies, r);
        Replies := Replies + {r};
      }
      StepWhole();
      ChannelWhole();
      Whole();
    }

    lemma ReceiverParts()
      requires Receiver.Valid() && !Receiver.EmergencyDisabled
      ensures Receiver.Window.WindowValid() && Receiver.Window.NextValid()
      ensures Receiver.Window.NextExpectedElement <= Receiver.Window.Count
      ensures forall a: nat :: a < Receiver.Window.Base + Receiver.Window.NextExpectedElement ==> a in Receiver.Window.Received
    {
      hide AllHold, AllStale, EndsBefore, Wrap;
    }

    lemma NewReply(r: Reply)
      requires AllEncodable(r.ranges) && r.bytes == SerializeHeaderPacketNum(Wrap(r.next)) + Encoded(r.ranges)
      ensures Written(r)
    {
      hide RangeEncodable, SerializeHeaderPacketNum, Encoded, Wrap;
    }

    // A reply arrives in time.
    method DeliverReply(bytes: Bytes, ghost r: Reply)
      requires Valid() && r in Replies && bytes == r.bytes && Timely(r.next)
      modifies Acks, Sender.Window
      ensures Valid() && Sender.Window.History == old(Sender.Window.History)
      ensures Sender.Window.FirstUnremoved() == if r.next < old(Sender.Window.FirstUnremoved()) then old(Sender.Window.FirstUnremoved()) else r.next
    {
      hide *;
      Parts();
      SenderParts();
      StepParts();
      JoinedParts();
      ChannelParts();
      ReplySent(r);
      SentNear();
      TimelyIs(r.next);
      Periods();
      ghost var kept := Sender.Window.FirstUnremoved();
      Acks.OnAcknowledgementData(bytes, r.next, r.ranges);
      SafeAcknowledge(|Sender.Window.History|, kept, Receiver.Window.Received, Originals, Repairs, Replies, r);
      SenderWhole();
      StepWhole();
      JoinedWhole();
      ChannelWhole();
      Whole();
    }

    lemma ReplySent(r: Reply)
      requires InStep() && r in Replies && Written(r)
      ensures r.next <= |Sender.Window.History| && AllEncodable(r.ranges)
      ensures r.bytes == SerializeHeaderPacketNum(Wrap(r.next)) + Encoded(r.ranges)
    {
      hide Encoded, RangeEncodable, SerializeHeaderPacketNum, Wrap;
    }
  }
}
