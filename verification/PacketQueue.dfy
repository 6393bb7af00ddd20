// Packets waiting for the shaper, and the loop that sends them. The queue is a
// priority queue: the packet with the greatest bytes leaves first.
module PacketQueue {
  import opened Shaper

  type Bytes = seq<int>

  predicate AtMost(a: Bytes, b: Bytes) {
    a == [] || (b != [] && (a[0] < b[0] || (a[0] == b[0] && AtMost(a[1..], b[1..]))))
  }

  // Packets are compared byte by byte; one that goes on where another ends is greater.
  ghost predicate Before(a: Bytes, b: Bytes, k: nat) {
    k <= |a| && k <= |b| && a[..k] == b[..k] && (k == |a| || (k < |b| && a[k] < b[k]))
  }

  lemma {:induction false} AtMostIs(a: Bytes, b: Bytes)
    ensures AtMost(a, b) <==> exists k: nat :: Before(a, b, k)
  {
    if a == [] {
      assert Before(a, b, 0);
    } else if b != [] && a[0] == b[0] {
      AtMostIs(a[1..], b[1..]);
      if k: nat :| Before(a[1..], b[1..], k) {
        BeforeNext(a, b, k);
      }
      if k: nat :| Before(a, b, k) {
        BeforeNext(a, b, k - 1);
      }
    } else if b != [] {
      assert a[0] < b[0] ==> Before(a, b, 0);
    }
  }

  lemma BeforeNext(a: Bytes, b: Bytes, k: nat)
    requires a != [] && b != [] && a[0] == b[0]
    ensures Before(a[1..], b[1..], k) <==> Before(a, b, k + 1)
  {
    if k + 1 <= |a| && k + 1 <= |b| {
      assert a[..k + 1] == [a[0]] + a[1..][..k] && b[..k + 1] == [b[0]] + b[1..][..k];
    }
  }

  lemma {:induction false} AtMostTransitive(a: Bytes, b: Bytes, c: Bytes)
    requires AtMost(a, b) && AtMost(b, c)
    ensures AtMost(a, c)
  {
    if a != [] && a[0] == b[0] == c[0] {
      AtMostTransitive(a[1..], b[1..], c[1..]);
    }
  }

  lemma {:induction false} AtMostTotal(a: Bytes, b: Bytes)
    ensures AtMost(a, b) || AtMost(b, a)
  {
    if a != [] && b != [] && a[0] == b[0] {
      AtMostTotal(a[1..], b[1..]);
    }
  }

  ghost predicate Sorted(packets: seq<Bytes>) {
    forall i, j :: 0 <= i <= j < |packets| ==> AtMost(packets[i], packets[j])
  }

  function Inserted(packets: seq<Bytes>, packet: Bytes): (s: seq<Bytes>)
    ensures multiset(s) == multiset(packets) + multiset{packet}
  {
    if packets == [] || AtMost(packets[|packets| - 1], packet) then
      packets + [packet]
    else
      var last := |packets| - 1;
      assert packets == packets[..last] + [packets[last]];
      Inserted(packets[..last], packet) + [packets[last]]
  }

  lemma {:induction false} InsertedSorted(packets: seq<Bytes>, packet: Bytes)
    requires Sorted(packets)
    ensures Sorted(Inserted(packets, packet))
  {
    hide AtMost;
    if packets == [] {
      AtMostTotal(packet, packet);
    } else {
      var last := |packets| - 1;
      AtMostTotal(packets[last], packet);
      AtMostTotal(packet, packet);
      if AtMost(packets[last], packet) {
        forall i | 0 <= i < |packets| ensures AtMost(packets[i], packet) {
          AtMostTransitive(packets[i], packets[last], packet);
        }
      } else {
        InsertedSorted(packets[..last], packet);
        var front := Inserted(packets[..last], packet);
        AtMostTotal(packets[last], packets[last]);
        forall p | p in front ensures AtMost(p, packets[last]) {
          assert p in multiset(front);
          assert p in packets[..last] || p == packet;
        }
      }
    }
  }

  ghost predicate SentAt(s: Send, now: int, packet: Bytes) {
    s.time == now && s.bytes == |packet|
  }

  class ShapedPacketQueue {
    const TheShaper: BandwidthShaper
    var Packets: seq<Bytes>    // in ascending order

    ghost predicate Valid()
      reads this, TheShaper
    {
      TheShaper.Valid() && Sorted(Packets)
    }

    constructor (kbps: nat, bufferSize: nat)
      requires 1 <= kbps <= 8_000_000
      ensures Valid() && fresh(TheShaper) && TheShaper.WithinBuffer() && TheShaper.BufferSize == bufferSize && Packets == []
    {
      TheShaper := new BandwidthShaper(kbps, bufferSize);
      Packets := [];
    }

    method Push(packet: Bytes)
      requires Valid()
      modifies this
      ensures Valid() && multiset(Packets) == multiset(old(Packets)) + multiset{packet}
    {
      InsertedSorted(Packets, packet);
      Packets := Inserted(Packets, packet);
    }

    function Top(): (packet: Bytes)
      requires Valid() && Packets != []
      reads this, TheShaper
      ensures packet in Packets && forall p :: p in Packets ==> AtMost(p, packet)
    {
      Packets[|Packets| - 1]
    }

    // Not while the queue is empty, and else once the greatest packet fits.
    predicate CanPop(now: int)
      requires Valid()
      reads this, TheShaper
    {
      Packets != [] && TheShaper.WhenCanSend(|Top()|) <= now
    }

    // The greatest packet leaves the queue, even if the shaper refuses the time.
    method PopValue(now: int) returns (packet: Bytes, ok: bool)
      requires Valid() && Packets != []
      modifies this, TheShaper
      ensures Valid() && packet == old(Top()) && old(Packets) == Packets + [packet]
      ensures ok <==> now >= old(TheShaper.BufferUtilizationTp)
      ensures ok ==> TheShaper.Log == old(TheShaper.Log) + [Send(now, |packet|, TheShaper.BufferUtilization)]
      ensures ok ==> TheShaper.BufferUtilizationTp == now
      ensures ok && old(TheShaper.WithinBuffer()) ==>
                (TheShaper.WithinBuffer() <==> |packet| <= TheShaper.BufferSize && now >= old(TheShaper.WhenCanSend(|packet|)))
      ensures !ok ==> TheShaper.Log == old(TheShaper.Log) && TheShaper.BufferUtilization == old(TheShaper.BufferUtilization)
    {
      packet := Top();
      Packets := Packets[..|Packets| - 1];
      ok := TheShaper.DidSend(now, |packet|);
    }

    // The sender's loop: everything that may go now goes. It leaves the buffer
    // within its size, and stops only when the next packet would overflow it.
    method MaybeSend(now: int) returns (sent: seq<Bytes>)
      requires Valid() && TheShaper.WithinBuffer() && now >= TheShaper.BufferUtilizationTp
      requires forall p :: p in Packets ==> |p| <= TheShaper.BufferSize
      modifies this, TheShaper
      ensures Valid() && TheShaper.WithinBuffer()
      ensures Packets != [] ==> now < TheShaper.WhenCanSend(|Packets[|Packets| - 1]|)
      ensures Packets <= old(Packets) && |old(Packets)| == |Packets| + |sent|
      ensures forall k :: 0 <= k < |sent| ==> sent[k] == old(Packets)[|old(Packets)| - 1 - k]
      ensures |TheShaper.Log| == |old(TheShaper.Log)| + |sent| && old(TheShaper.Log) <= TheShaper.Log
      ensures forall k :: 0 <= k < |sent| ==> SentAt(TheShaper.Log[|old(TheShaper.Log)| + k], now, sent[k])
      ensures forall p, q :: p in Packets && q in sent ==> AtMost(p, q)
    {
      hide AtMost, BandwidthShaper.WithinBuffer, BandwidthShaper.Valid, Sorted;
      sent := [];
      while CanPop(now)
        invariant Valid() && TheShaper.WithinBuffer() && now >= TheShaper.BufferUtilizationTp
        invariant Packets <= old(Packets) && |old(Packets)| == |Packets| + |sent|
        invariant forall k :: 0 <= k < |sent| ==> sent[k] == old(Packets)[|old(Packets)| - 1 - k]
        invariant |TheShaper.Log| == |old(TheShaper.Log)| + |sent| && old(TheShaper.Log) <= TheShaper.Log
        invariant forall k :: 0 <= k < |sent| ==> SentAt(TheShaper.Log[|old(TheShaper.Log)| + k], now, sent[k])
        invariant forall p, q :: p in Packets && q in sent ==> AtMost(p, q)
        decreases |Packets|
      {
        ghost var packets := Packets;
        assert Top() in old(Packets);
        var packet, ok := PopValue(now);
        assert forall p :: p in Packets ==> p in packets;
        sent := sent + [packet];
      }
    }
  }
}
