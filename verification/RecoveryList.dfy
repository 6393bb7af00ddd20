// The decoder's doubly linked list of recovery packets.
module RecoveryList {
  import opened Collections
  import opened Recoveries

  class RecoveryPacket {
    var Next: RecoveryPacket?
    var Prev: RecoveryPacket?
    var Info: Recovery

    constructor (info: Recovery)
      ensures Info == info && Next == null && Prev == null
    {
      Info, Next, Prev := info, null, null;
    }
  }

  ghost function At(nodes: seq<RecoveryPacket>, i: int): RecoveryPacket? {
    if 0 <= i < |nodes| then nodes[i] else null
  }

  // Each node knows its neighbours and holds its packet.
  ghost predicate Linked(nodes: seq<RecoveryPacket>, infos: seq<Recovery>)
    reads nodes
  {
    && |infos| == |nodes|
    && forall i :: 0 <= i < |nodes| ==>
         nodes[i].Next == At(nodes, i + 1) && nodes[i].Prev == At(nodes, i - 1) && nodes[i].Info == infos[i]
  }

  lemma DistinctInserted(nodes: seq<RecoveryPacket>, i: nat, node: RecoveryPacket)
    requires Distinct(nodes) && i <= |nodes| && node !in nodes
    ensures Distinct(nodes[..i] + [node] + nodes[i..])
  {}

  lemma DistinctPart(nodes: seq<RecoveryPacket>, i: nat, j: nat)
    requires Distinct(nodes) && i <= j <= |nodes|
    ensures Distinct(nodes[..i] + nodes[j..])
  {}

  class RecoveryPacketList {
    var Head: RecoveryPacket?
    var Tail: RecoveryPacket?
    var RecoveryPacketCount: nat
    ghost var Nodes: seq<RecoveryPacket>    // oldest first
    ghost var Contents: seq<Recovery>       // the packets they hold

    ghost predicate Valid()
      reads this, Nodes
    {
      && Distinct(Nodes) && Linked(Nodes, Contents)
      && Head == At(Nodes, 0) && Tail == At(Nodes, |Nodes| - 1) && RecoveryPacketCount == |Nodes|
    }

    constructor ()
      ensures Valid() && Contents == [] && Nodes == []
    {
      Head, Tail, RecoveryPacketCount, Nodes, Contents := null, null, 0, [], [];
    }

    // Where a new packet goes, searching from the tail.
    method Search(info: Recovery) returns (prev: RecoveryPacket?, next: RecoveryPacket?, ghost place: nat)
      requires Valid()
      ensures place == Place(Contents, info) <= |Nodes| && prev == At(Nodes, place - 1) && next == At(Nodes, place)
    {
      hide StopsAt, Place, Distinct;
      prev, next, place := Tail, null, |Nodes|;
      while prev != null && !StopsAt(info, prev.Info)
        invariant place <= |Nodes| && prev == At(Nodes, place - 1) && next == At(Nodes, place)
        invariant forall j :: place <= j < |Contents| ==> !StopsAt(info, Contents[j])
        decreases place
      {
        next := prev;
        prev := prev.Prev;
        place := place - 1;
      }
      PlaceIs(Contents, info, place);
    }

    // Inserts a packet; true if the checked region has to be looked at again
    // because the packet is not behind a nonempty list.
    method Insert(recovery: RecoveryPacket) returns (inside: bool)
      requires Valid() && recovery !in Nodes
      modifies this, Nodes, recovery
      ensures Valid() && recovery.Info == old(recovery.Info)
      ensures var place := Place(old(Contents), recovery.Info);
              Nodes == old(Nodes)[..place] + [recovery] + old(Nodes)[place..] && (inside <==> place == 0 || place < |old(Nodes)|)
      ensures Contents == Inserted(old(Contents), recovery.Info)
    {
      hide *;
      ValidParts();
      var prev, next, place := Search(recovery.Info);
      NeighboursAt(Nodes, place);
      DistinctInserted(Nodes, place, recovery);
      Splice(recovery, prev, next, place);
      SplicedLinked(Nodes, Contents, recovery, place);
      inside := prev == null || next != null;
      RecoveryPacketCount := RecoveryPacketCount + 1;
      InsertedIs(Contents, recovery.Info);
      EndsSpliced(Nodes, recovery, place);
      Contents := Contents[..place] + [recovery.Info] + Contents[place..];
      Nodes := Nodes[..place] + [recovery] + Nodes[place..];
      ValidWhole();
    }

    // Drops the packets at the head that end at or before the element.
    method DeletePacketsBefore(element: nat)
      requires Valid()
      modifies this, Nodes
      ensures Valid() && Contents == DeletedBefore(old(Contents), element)
      ensures Nodes == old(Nodes)[|old(Nodes)| - |Nodes|..]
    {
      hide *;
      ValidParts();
      var recovery, deleteCount := SkipBefore(element);
      Neighbour(Nodes, deleteCount);
      DeletedIs(Contents, element, deleteCount);
      CutBefore(recovery, deleteCount);
      AfterCut(Nodes, Contents, deleteCount);
      SetHead(recovery, deleteCount);
      Nodes, Contents := Nodes[deleteCount..], Contents[deleteCount..];
      ValidWhole();
    }

    method SetHead(recovery: RecoveryPacket?, deleteCount: nat)
      requires deleteCount <= RecoveryPacketCount && (recovery == null ==> deleteCount == RecoveryPacketCount)
      modifies this`Head, this`Tail, this`RecoveryPacketCount
      ensures Head == recovery && Tail == (if recovery == null then null else old(Tail))
      ensures RecoveryPacketCount == old(RecoveryPacketCount) - deleteCount
    {
      Head := recovery;
      if recovery != null {
        RecoveryPacketCount := RecoveryPacketCount - deleteCount;
      } else {
        Tail := null;
        RecoveryPacketCount := 0;
      }
    }

    method CutBefore(recovery: RecoveryPacket?, ghost k: nat)
      requires Valid() && k <= |Nodes| && recovery == At(Nodes, k)
      modifies Nodes
      ensures Cut(Nodes, Contents, k)
    {
      hide At;
      ghost var nodes := Nodes;
      Neighbour(nodes, k);
      if recovery != null {
        recovery.Prev := null;
      }
    }

    // The first packet that ends past the element, and how many do not.
    method SkipBefore(element: nat) returns (recovery: RecoveryPacket?, deleteCount: nat)
      requires Valid()
      ensures deleteCount <= |Nodes| && recovery == At(Nodes, deleteCount)
      ensures deleteCount == |Contents| || Contents[deleteCount].elementEnd > element
      ensures forall i :: 0 <= i < deleteCount ==> Contents[i].elementEnd <= element
    {
      hide Distinct;
      recovery, deleteCount := Head, 0;
      while recovery != null && recovery.Info.elementEnd <= element
        invariant deleteCount <= |Nodes| && recovery == At(Nodes, deleteCount)
        invariant forall i :: 0 <= i < deleteCount ==> Contents[i].elementEnd <= element
        decreases |Nodes| - deleteCount
      {
        recovery := recovery.Next;
        deleteCount := deleteCount + 1;
      }
    }

    // Unlinks one packet.
    method Delete(recovery: RecoveryPacket, ghost i: nat)
      requires Valid() && i < |Nodes| && Nodes[i] == recovery
      modifies this, Nodes
      ensures Valid() && Nodes == old(Nodes)[..i] + old(Nodes)[i + 1..]
      ensures Contents == old(Contents)[..i] + old(Contents)[i + 1..]
    {
      hide *;
      ValidParts();
      Bypass(recovery, i);
      BypassedLinked(Nodes, Contents, i);
      DistinctPart(Nodes, i, i + 1);
      EndsBypassed(Nodes, i);
      RecoveryPacketCount := RecoveryPacketCount - 1;
      Nodes, Contents := Nodes[..i] + Nodes[i + 1..], Contents[..i] + Contents[i + 1..];
      ValidWhole();
    }

    method Bypass(recovery: RecoveryPacket, ghost i: nat)
      requires Valid() && i < |Nodes| && Nodes[i] == recovery
      modifies this`Head, this`Tail, Nodes
      ensures Bypassed(Nodes, Contents, i)
      ensures Head == (if i == 0 then At(Nodes, 1) else old(Head)) && Tail == if i == |Nodes| - 1 then At(Nodes, i - 1) else old(Tail)
    {
      hide At;
      ghost var nodes := Nodes;
      Neighbour(nodes, i - 1);
      Neighbour(nodes, i + 1);
      var prev, next := recovery.Prev, recovery.Next;
      if prev != null {
        prev.Next := next;
      } else {
        Head := next;
      }
      if next != null {
        next.Prev := prev;
      } else {
        Tail := prev;
      }
    }

    // The window has moved on by elementCount elements.
    method DecrementElementCounters(elementCount: nat)
      requires Valid() && forall r :: r in Contents ==> elementCount <= r.elementStart && elementCount <= r.elementEnd
      modifies this`Contents, Nodes
      ensures Valid() && Contents == Moved(old(Contents), elementCount)
    {
      hide Valid, At, Moved;
      ValidParts();
      var recovery := Head;
      ghost var i, nodes, infos := 0, Nodes, Contents;
      NeighboursAt(nodes, 0);
      while recovery != null
        invariant Valid() && i <= |nodes| && recovery == At(nodes, i) && |Contents| == |nodes|
        invariant forall j :: 0 <= j < i ==> Contents[j] == MovedBy(infos[j], elementCount)
        invariant forall j :: i <= j < |nodes| ==> Contents[j] == infos[j]
        decreases |nodes| - i
      {
        NeighboursAt(nodes, i);
        assert infos[i] in infos;
        recovery := DecrementOne(recovery, elementCount, i);
        i := i + 1;
      }
      NeighboursAt(nodes, i);
      MovedIs(infos, elementCount, Contents);
    }

    // One step of it.
    method DecrementOne(recovery: RecoveryPacket, elementCount: nat, ghost i: nat) returns (next: RecoveryPacket?)
      requires Valid() && i < |Nodes| && recovery == At(Nodes, i)
      requires elementCount <= Contents[i].elementStart && elementCount <= Contents[i].elementEnd
      modifies this`Contents, recovery`Info
      ensures Valid() && next == At(Nodes, i + 1)
      ensures Contents == old(Contents)[i := MovedBy(old(Contents)[i], elementCount)]
    {
      hide Distinct, At;
      ghost var nodes := Nodes;
      NeighboursAt(nodes, i);
      DistinctFrom(nodes, i);
      recovery.Info := MovedBy(recovery.Info, elementCount);
      Contents := Contents[i := recovery.Info];
      next := recovery.Next;
    }

    lemma ValidParts()
      requires Valid()
      ensures Distinct(Nodes) && Linked(Nodes, Contents) && |Contents| == |Nodes|
      ensures Head == At(Nodes, 0) && Tail == At(Nodes, |Nodes| - 1) && RecoveryPacketCount == |Nodes|
    {
      hide Distinct, At;
    }

    lemma ValidWhole()
      requires Distinct(Nodes) && Linked(Nodes, Contents)
      requires Head == At(Nodes, 0) && Tail == At(Nodes, |Nodes| - 1) && RecoveryPacketCount == |Nodes|
      ensures Valid()
    {
      hide Distinct, At, Linked;
    }

    // Links a packet in between two neighbours.
    method Splice(recovery: RecoveryPacket, prev: RecoveryPacket?, next: RecoveryPacket?, ghost place: nat)
      requires Valid() && recovery !in Nodes && place <= |Nodes| && prev == At(Nodes, place - 1) && next == At(Nodes, place)
      modifies this`Head, this`Tail, Nodes, recovery
      ensures Spliced(Nodes, Contents, recovery, place)
      ensures recovery.Info == old(recovery.Info)
      ensures Head == (if place == 0 then recovery else old(Head)) && Tail == if place == |Nodes| then recovery else old(Tail)
    {
      hide At;
      ghost var nodes := Nodes;
      Neighbour(nodes, place - 1);
      Neighbour(nodes, place);
      recovery.Next, recovery.Prev := next, prev;
      if prev != null {
        prev.Next := recovery;
      } else {
        Head := recovery;
      }
      if next != null {
        next.Prev := recovery;
      } else {
        Tail := recovery;
      }
    }
  }

  lemma MovedIs(list: seq<Recovery>, k: nat, moved: seq<Recovery>)
    requires |moved| == |list| && forall j :: 0 <= j < |list| ==> k <= list[j].elementStart && k <= list[j].elementEnd && moved[j] == MovedBy(list[j], k)
    ensures Moved(list, k) == moved
  {}

  lemma DistinctFrom(nodes: seq<RecoveryPacket>, i: nat)
    requires Distinct(nodes) && i < |nodes|
    ensures forall j :: 0 <= j < |nodes| && j != i ==> nodes[j] != nodes[i]
  {}

  lemma DistinctTail(nodes: seq<RecoveryPacket>, k: nat)
    requires Distinct(nodes) && k <= |nodes|
    ensures Distinct(nodes[k..])
  {}

  // What is left of the list once its head is cut off.
  lemma AfterCut(nodes: seq<RecoveryPacket>, infos: seq<Recovery>, k: nat)
    requires k <= |nodes| && Distinct(nodes) && Cut(nodes, infos, k)
    ensures Distinct(nodes[k..]) && Linked(nodes[k..], infos[k..])
    ensures At(nodes[k..], 0) == At(nodes, k)
    ensures At(nodes[k..], |nodes| - k - 1) == if k == |nodes| then null else At(nodes, |nodes| - 1)
  {
    hide *;
    CutLinked(nodes, infos, k);
    DistinctTail(nodes, k);
    EndsCut(nodes, k);
  }

  lemma EndsCut(nodes: seq<RecoveryPacket>, k: nat)
    requires k <= |nodes|
    ensures At(nodes[k..], 0) == At(nodes, k)
    ensures At(nodes[k..], |nodes[k..]| - 1) == if k == |nodes| then null else At(nodes, |nodes| - 1)
  {}

  lemma EndsBypassed(nodes: seq<RecoveryPacket>, i: nat)
    requires i < |nodes|
    ensures var less := nodes[..i] + nodes[i + 1..];
            && At(less, 0) == (if i == 0 then At(nodes, 1) else At(nodes, 0))
            && At(less, |less| - 1) == if i == |nodes| - 1 then At(nodes, i - 1) else At(nodes, |nodes| - 1)
  {}

  // The packets from k on, the first of them without a predecessor.
  ghost predicate Cut(nodes: seq<RecoveryPacket>, infos: seq<Recovery>, k: nat)
    reads nodes
  {
    && |infos| == |nodes|
    && forall i :: k <= i < |nodes| ==>
         nodes[i].Next == At(nodes, i + 1) && nodes[i].Prev == (if i == k then null else At(nodes, i - 1)) && nodes[i].Info == infos[i]
  }

  lemma CutLinked(nodes: seq<RecoveryPacket>, infos: seq<Recovery>, k: nat)
    requires k <= |nodes| && Cut(nodes, infos, k)
    ensures Linked(nodes[k..], infos[k..])
  {
    var less := nodes[k..];
    forall i | 0 <= i < |less|
      ensures less[i].Next == At(less, i + 1) && less[i].Prev == At(less, i - 1) && less[i].Info == infos[k..][i]
    {
      assert less[i] == nodes[k + i];
    }
  }

  // All packets but the i-th, linked past it.
  ghost predicate Bypassed(nodes: seq<RecoveryPacket>, infos: seq<Recovery>, i: nat)
    reads nodes
  {
    && |infos| == |nodes|
    && forall j :: 0 <= j < |nodes| && j != i ==>
         && nodes[j].Next == At(nodes, if j + 1 == i then i + 1 else j + 1)
         && nodes[j].Prev == At(nodes, if j == i + 1 then i - 1 else j - 1)
         && nodes[j].Info == infos[j]
  }

  lemma BypassedLinked(nodes: seq<RecoveryPacket>, infos: seq<Recovery>, i: nat)
    requires i < |nodes| && Bypassed(nodes, infos, i)
    ensures Linked(nodes[..i] + nodes[i + 1..], infos[..i] + infos[i + 1..])
  {
    var less, all := nodes[..i] + nodes[i + 1..], infos[..i] + infos[i + 1..];
    forall j | 0 <= j < |less|
      ensures less[j].Next == At(less, j + 1) && less[j].Prev == At(less, j - 1) && less[j].Info == all[j]
    {
      hide At;
      LeftOut(nodes, i, j);
      LeftOutInfo(infos, i, j);
    }
  }

  // Where the j-th of the others stands in the list of all, and its neighbours.
  lemma LeftOut(nodes: seq<RecoveryPacket>, i: nat, j: nat)
    requires i < |nodes| && j < |nodes| - 1
    ensures var less, k := nodes[..i] + nodes[i + 1..], if j < i then j else j + 1;
            && |less| == |nodes| - 1 && less[j] == nodes[k]
            && At(less, j + 1) == At(nodes, if k + 1 == i then i + 1 else k + 1)
            && At(less, j - 1) == At(nodes, if k == i + 1 then i - 1 else k - 1)
  {}

  lemma LeftOutInfo(infos: seq<Recovery>, i: nat, j: nat)
    requires i < |infos| && j < |infos| - 1
    ensures (infos[..i] + infos[i + 1..])[j] == infos[if j < i then j else j + 1]
  {}

  lemma {:induction false} DeletedIs(list: seq<Recovery>, e: nat, k: nat)
    requires k <= |list| && (forall i :: 0 <= i < k ==> list[i].elementEnd <= e) && (k < |list| ==> list[k].elementEnd > e)
    ensures DeletedBefore(list, e) == list[k..]
  {
    if k > 0 {
      DeletedIs(list[1..], e, k - 1);
      assert list[1..][k - 1..] == list[k..];
    } else {
      assert list[0..] == list;
    }
  }

  lemma Neighbour(nodes: seq<RecoveryPacket>, i: int)
    ensures (At(nodes, i) != null) == (0 <= i < |nodes|)
    ensures 0 <= i < |nodes| ==> At(nodes, i) == nodes[i]
  {}

  lemma NeighboursAt(nodes: seq<RecoveryPacket>, i: nat)
    ensures (At(nodes, i) != null) == (i < |nodes|) && (i < |nodes| ==> At(nodes, i) == nodes[i])
    ensures (At(nodes, i - 1) != null) == (0 < i <= |nodes|) && (0 < i <= |nodes| ==> At(nodes, i - 1) == nodes[i - 1])
  {}

  lemma EndsSpliced(nodes: seq<RecoveryPacket>, recovery: RecoveryPacket, place: nat)
    requires place <= |nodes|
    ensures var more := nodes[..place] + [recovery] + nodes[place..];
            && At(more, 0) == (if place == 0 then recovery else At(nodes, 0))
            && At(more, |more| - 1) == (if place == |nodes| then recovery else At(nodes, |nodes| - 1))
  {}

  // All neighbours but those at the place are as they were.
  ghost predicate Spliced(nodes: seq<RecoveryPacket>, infos: seq<Recovery>, recovery: RecoveryPacket, place: nat)
    reads nodes, recovery
  {
    && |infos| == |nodes| && recovery.Next == At(nodes, place) && recovery.Prev == At(nodes, place - 1)
    && forall i :: 0 <= i < |nodes| ==>
         && nodes[i].Next == (if i + 1 == place then recovery else At(nodes, i + 1))
         && nodes[i].Prev == (if i == place then recovery else At(nodes, i - 1))
         && nodes[i].Info == infos[i]
  }

  lemma SplicedLinked(nodes: seq<RecoveryPacket>, infos: seq<Recovery>, recovery: RecoveryPacket, place: nat)
    requires Spliced(nodes, infos, recovery, place) && place <= |nodes|
    ensures Linked(nodes[..place] + [recovery] + nodes[place..], infos[..place] + [recovery.Info] + infos[place..])
  {
    var more, all := nodes[..place] + [recovery] + nodes[place..], infos[..place] + [recovery.Info] + infos[place..];
    forall i | 0 <= i < |more|
      ensures more[i].Next == At(more, i + 1) && more[i].Prev == At(more, i - 1) && more[i].Info == all[i]
    {
      if i > place {
        assert more[i] == nodes[i - 1];
      }
    }
  }

  lemma InsertedIs(list: seq<Recovery>, r: Recovery)
    ensures Inserted(list, r) == list[..Place(list, r)] + [r] + list[Place(list, r)..]
  {
    hide StopsAt, Place;
  }

  lemma {:induction false} PlaceIs(list: seq<Recovery>, r: Recovery, i: nat)
    requires i <= |list| && (forall j :: i <= j < |list| ==> !StopsAt(r, list[j])) && (i > 0 ==> StopsAt(r, list[i - 1]))
    ensures Place(list, r) == i
  {
    hide StopsAt;
    if i < |list| {
      PlaceIs(list[..|list| - 1], r, i);
    }
  }
}
