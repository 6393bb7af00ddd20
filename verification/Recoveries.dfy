// The decoder's list of recovery packets: kept in the order of their right ends.
module Recoveries {
  import opened Columns
  import opened Gf256
  import opened Coefficients

  // elementStart is where the light range starts, not where the sum starts.
  datatype Recovery = Recovery(metadata: Metadata, elementStart: nat, elementEnd: nat, lostCount: nat, payload: Gf)

  // The packet the row's range starts at, in a window starting at packet base.
  ghost function StartOf(r: Recovery, base: nat): int {
    base + r.elementEnd - r.metadata.sumCount
  }

  // The row's counters agree with its metadata, it protects the next expected
  // element, and nothing before its light range was lost.
  ghost predicate Fits(r: Recovery, base: nat, count: nat, next: nat) {
    && ValidMetadata(r.metadata) && r.elementStart + r.metadata.ldpcCount == r.elementEnd
    && r.elementStart <= next < r.elementEnd <= count
    && 0 <= StartOf(r, base) && r.metadata.columnStart == Wrap(StartOf(r, base))
  }

  predicate IsSiamese(r: Recovery) {
    r.metadata.sumCount > CAUCHY_THRESHOLD
  }

  // May r stand right after p?
  predicate StopsAt(r: Recovery, p: Recovery) {
    || r.elementEnd > p.elementEnd
    || (r.elementEnd == p.elementEnd && IsColumnDeltaNegative(SubtractColumns(r.metadata.columnStart, p.metadata.columnStart)))
  }

  // Searching from the tail for the place of r.
  function Place(list: seq<Recovery>, r: Recovery): (i: nat)
    ensures i <= |list|
    ensures forall j :: i <= j < |list| ==> !StopsAt(r, list[j])
    ensures i > 0 ==> StopsAt(r, list[i - 1])
  {
    if |list| == 0 || StopsAt(r, list[|list| - 1]) then |list| else Place(list[..|list| - 1], r)
  }

  function Inserted(list: seq<Recovery>, r: Recovery): (l: seq<Recovery>)
    ensures |l| == |list| + 1
  {
    var i := Place(list, r);
    list[..i] + [r] + list[i..]
  }

  ghost predicate Sorted(list: seq<Recovery>) {
    forall i, j :: 0 <= i <= j < |list| ==> list[i].elementEnd <= list[j].elementEnd
  }

  lemma InsertedSorted(list: seq<Recovery>, r: Recovery)
    requires Sorted(list)
    ensures Sorted(Inserted(list, r))
  {
    var i, l := Place(list, r), Inserted(list, r);
    forall j, k | 0 <= j <= k < |l| ensures l[j].elementEnd <= l[k].elementEnd {
      assert i <= k - 1 < |list| ==> !StopsAt(r, list[k - 1]);
      assert j < i ==> list[j].elementEnd <= list[i - 1].elementEnd;
    }
  }

  ghost predicate LeftSorted(list: seq<Recovery>, base: nat) {
    forall i, j :: 0 <= i <= j < |list| ==> StartOf(list[i], base) <= StartOf(list[j], base)
  }

  // Left ends are in order too only if no packet that ends later starts earlier, and
  // packets that end together start together.
  lemma LeftEndsOfTwo(p: Recovery, r: Recovery, base: nat, count: nat, next: nat)
    requires Fits(p, base, count, next) && Fits(r, base, count, next)
    ensures LeftSorted(Inserted([p], r), base) <==>
            && (p.elementEnd < r.elementEnd ==> StartOf(p, base) <= StartOf(r, base))
            && (r.elementEnd < p.elementEnd ==> StartOf(r, base) <= StartOf(p, base))
            && (r.elementEnd == p.elementEnd ==> StartOf(r, base) == StartOf(p, base))
  {
    hide Wrap;
    assert [p][..0] == [] && [p][..1] == [p];
    var l := Inserted([p], r);
    if r.elementEnd == p.elementEnd {
      if StartOf(r, base) < StartOf(p, base) {
        SubtractBehind(StartOf(r, base), StartOf(p, base));
      } else {
        SubtractWrapped(StartOf(r, base), StartOf(p, base));
      }
    }
    if StopsAt(r, p) {
      assert l == [p, r] && Place([p], r) == 1;
    } else {
      assert l == [r, p] && Place([p], r) == 0;
    }
    assert LeftSorted(l, base) <==> StartOf(l[0], base) <= StartOf(l[1], base);
  }

  // The first rows of the example at the insertion: 012345, 23456, 01234567.
  lemma LeftEndsNotSorted(payload: Gf)
    ensures var a, b, c := Recovery(Metadata(0, 0, 6, 6), 0, 6, 0, payload), Recovery(Metadata(1, 2, 5, 5), 2, 7, 0, payload),
                           Recovery(Metadata(0, 0, 8, 8), 0, 8, 0, payload);
            && Inserted(Inserted([a], b), c) == [a, b, c] && Sorted([a, b, c]) && !LeftSorted([a, b, c], 0)
  {
    var a, b, c := Recovery(Metadata(0, 0, 6, 6), 0, 6, 0, payload), Recovery(Metadata(1, 2, 5, 5), 2, 7, 0, payload),
                   Recovery(Metadata(0, 0, 8, 8), 0, 8, 0, payload);
    assert Place([a], b) == 1 && Inserted([a], b) == [a, b];
    assert Place([a, b], c) == 2 && Inserted([a, b], c) == [a, b, c];
    assert StartOf([a, b, c][1], 0) == 2 && StartOf([a, b, c][2], 0) == 0;
  }

  // Drops packets from the head as long as they end at or before element e.
  function DeletedBefore(list: seq<Recovery>, e: nat): (l: seq<Recovery>)
    ensures |l| <= |list| && l == list[|list| - |l|..]
    ensures |l| > 0 ==> l[0].elementEnd > e
  {
    if |list| == 0 || list[0].elementEnd > e then list else DeletedBefore(list[1..], e)
  }

  // In a sorted list these are all that end there.
  lemma {:induction false} DeletedExactly(list: seq<Recovery>, e: nat)
    requires Sorted(list)
    ensures var l := DeletedBefore(list, e);
            && Sorted(l)
            && forall i :: 0 <= i < |list| ==> (list[i].elementEnd > e <==> |list| - |l| <= i)
  {
    if |list| > 0 && list[0].elementEnd <= e {
      DeletedExactly(list[1..], e);
      var l := DeletedBefore(list, e);
      forall i | 0 <= i < |list| ensures list[i].elementEnd > e <==> |list| - |l| <= i {
        if i > 0 {
          assert list[1..][i - 1] == list[i];
        }
      }
    }
  }

  // The end of the last range that is listed or has been received.
  function CoveredEnd(list: seq<Recovery>, next: nat): nat {
    if |list| == 0 then next else list[|list| - 1].elementEnd
  }

  lemma DeletedCovers(list: seq<Recovery>, next: nat, later: nat)
    requires Sorted(list) && next <= later
    ensures CoveredEnd(list, next) <= CoveredEnd(DeletedBefore(list, later), later)
  {
    DeletedExactly(list, later);
  }

  // The window moved on by `removed` elements.
  function MovedBy(r: Recovery, removed: nat): Recovery
    requires removed <= r.elementStart && removed <= r.elementEnd
  {
    r.(elementEnd := r.elementEnd - removed, elementStart := r.elementStart - removed)
  }

  function Moved(list: seq<Recovery>, removed: nat): (l: seq<Recovery>)
    requires forall r :: r in list ==> removed <= r.elementStart && removed <= r.elementEnd
    ensures |l| == |list|
    ensures forall i :: 0 <= i < |l| ==>
              l[i] == list[i].(elementStart := list[i].elementStart - removed, elementEnd := list[i].elementEnd - removed)
  {
    seq(|list|, i requires 0 <= i < |list| => MovedBy(list[i], removed))
  }

  // ---- which elements may go ----

  // Running sums kept for `target` also serve this row.
  predicate Continues(m: Metadata, target: Metadata) {
    m.columnStart == target.columnStart && target.sumCount <= m.sumCount
  }

  // Nothing the row needs is dropped with the elements before firstKept: not its
  // light range, and not its sum's unless the running sums carry on with it.
  ghost predicate Spared(r: Recovery, base: nat, firstKept: nat, target: Metadata) {
    && firstKept <= r.elementStart
    && (IsSiamese(r) ==> Continues(r.metadata, target) || base + firstKept <= StartOf(r, base))
  }

  ghost predicate FirstSiamese(recs: seq<Recovery>, t: nat) {
    t < |recs| && IsSiamese(recs[t]) && forall i :: 0 <= i < t ==> !IsSiamese(recs[i])
  }

  // The row needs one of the first n elements: for its light range, or for a sum that
  // the one of the first Siamese row cannot carry on with.
  ghost predicate NeedsFront(recs: seq<Recovery>, i: nat, base: nat, n: nat) {
    && i < |recs|
    && (recs[i].elementStart < n
        || (IsSiamese(recs[i]) && StartOf(recs[i], base) < base + n
            && forall t: nat :: FirstSiamese(recs, t) ==> !Continues(recs[i].metadata, recs[t].metadata)))
  }

  ghost predicate SomeNeeds(recs: seq<Recovery>, base: nat, n: nat) {
    exists i :: NeedsFront(recs, i, base, n)
  }

  lemma NeedsMore(recs: seq<Recovery>, base: nat, n: nat, m: nat)
    requires SomeNeeds(recs, base, n) && n <= m
    ensures SomeNeeds(recs, base, m)
  {
    hide Continues;
    var i :| NeedsFront(recs, i, base, n);
    assert NeedsFront(recs, i, base, m);
  }

  lemma OneNeeds(recs: seq<Recovery>, i: nat, base: nat, n: nat)
    requires NeedsFront(recs, i, base, n)
    ensures SomeNeeds(recs, base, n)
  {}

  lemma NeedsStart(recs: seq<Recovery>, i: nat, base: nat)
    requires i < |recs|
    ensures NeedsFront(recs, i, base, recs[i].elementStart + 1)
  {}

  lemma NeedsSum(recs: seq<Recovery>, i: nat, base: nat, t: nat)
    requires i < |recs| && IsSiamese(recs[i]) && FirstSiamese(recs, t) && !Continues(recs[i].metadata, recs[t].metadata) && base <= StartOf(recs[i], base)
    ensures NeedsFront(recs, i, base, StartOf(recs[i], base) - base + 1)
  {
    hide Continues;
    forall u: nat | FirstSiamese(recs, u) ensures u == t {}
  }

  // It still does, and needs no more, once the front has moved.
  lemma MovedNeeds(recs: seq<Recovery>, base: nat, removed: nat, n: nat)
    requires SomeNeeds(recs, base, removed + n)
    requires forall r :: r in recs ==> removed <= r.elementStart && removed <= r.elementEnd
    ensures SomeNeeds(Moved(recs, removed), base + removed, n)
  {
    hide Continues;
    var l := Moved(recs, removed);
    var i :| NeedsFront(recs, i, base, removed + n);
    forall t: nat | FirstSiamese(l, t) ensures FirstSiamese(recs, t) {
      assert forall k :: 0 <= k < |recs| ==> l[k].metadata == recs[k].metadata;
    }
    assert NeedsFront(l, i, base + removed, n);
  }

  lemma InsertedBehind(list: seq<Recovery>, r: Recovery)
    requires Place(list, r) == |list|
    ensures Inserted(list, r) == list + [r]
  {
    assert list[..|list|] == list && list[|list|..] == [];
  }

  lemma InsertedSome(list: seq<Recovery>, r: Recovery)
    ensures Inserted(list, r) != []
  {}
}
