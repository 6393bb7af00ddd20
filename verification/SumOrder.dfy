// Which recovery packets can have their running sums formed, one after the other,
// when the data the sums start at may be gone.
module SumOrder {
  import opened Columns
  import opened Gf256
  import opened Coefficients
  import opened Recoveries

  // What the running sums start at, and how many columns they may have summed.
  datatype SumsAt = SumsAt(start: int, count: nat)

  // The sums once the used among the first k rows have been through.
  ghost function SumsAfter(recs: seq<Recovery>, used: seq<bool>, base: nat, sums: SumsAt, k: nat): SumsAt
    requires k <= |recs| && k <= |used|
  {
    if k == 0 then sums
    else if used[k - 1] && IsSiamese(recs[k - 1]) then SumsAt(StartOf(recs[k - 1], base), recs[k - 1].metadata.sumCount)
    else SumsAfter(recs, used, base, sums, k - 1)
  }

  // The row's sum starts in the window, or where the sums do and does not end before
  // what they have summed.
  ghost predicate CanForm(r: Recovery, base: nat, sums: SumsAt) {
    IsSiamese(r) ==> base <= StartOf(r, base) || (StartOf(r, base) == sums.start && sums.count <= r.metadata.sumCount)
  }

  // The sums of all used rows can be formed in their order.
  ghost predicate AllForm(recs: seq<Recovery>, used: seq<bool>, k: nat, base: nat, sums: SumsAt) {
    && k <= |recs| && k <= |used|
    && forall i :: 0 <= i < k && used[i] ==> CanForm(recs[i], base, SumsAfter(recs, used, base, sums, i))
  }

  lemma FormsNone(recs: seq<Recovery>, used: seq<bool>, base: nat, sums: SumsAt)
    ensures AllForm(recs, used, 0, base, sums) && SumsAfter(recs, used, base, sums, 0) == sums
  {}

  lemma FormsNext(recs: seq<Recovery>, used: seq<bool>, i: nat, k: nat, base: nat, sums: SumsAt)
    requires AllForm(recs, used, i, base, sums) && i < k <= |recs| && k <= |used|
    ensures var before, after := SumsAfter(recs, used, base, sums, i), SumsAfter(recs, used, base, sums, i + 1);
            && after == (if used[i] && IsSiamese(recs[i]) then SumsAt(StartOf(recs[i], base), recs[i].metadata.sumCount) else before)
            && (if used[i] ==> CanForm(recs[i], base, before) then AllForm(recs, used, i + 1, base, sums) else !AllForm(recs, used, k, base, sums))
  {}

  ghost predicate Dropped(r: Recovery, base: nat) {
    IsSiamese(r) && StartOf(r, base) < base
  }

  // Rows whose start is gone go on with the sums, and so do all rows before them.
  ghost predicate Served(recs: seq<Recovery>, base: nat, sums: SumsAt) {
    forall i :: 0 <= i < |recs| && Dropped(recs[i], base) ==>
      && StartOf(recs[i], base) == sums.start && sums.count <= recs[i].metadata.sumCount
      && forall j :: 0 <= j < i && IsSiamese(recs[j]) ==> StartOf(recs[j], base) == sums.start
  }

  lemma SumsAfterServed(recs: seq<Recovery>, used: seq<bool>, base: nat, sums: SumsAt, k: nat, i: nat)
    requires Served(recs, base, sums) && Sorted(recs) && k <= i < |recs| && k <= |used| && Dropped(recs[i], base)
    ensures var s := SumsAfter(recs, used, base, sums, k); s.start == sums.start && s.count <= recs[i].metadata.sumCount
  {}

  // That is so exactly if the sums can be formed whichever rows are used.
  lemma ServedForms(recs: seq<Recovery>, base: nat, sums: SumsAt)
    requires Sorted(recs)
    ensures Served(recs, base, sums) <==> forall used: seq<bool> | |used| == |recs| :: AllForm(recs, used, |recs|, base, sums)
  {
    if Served(recs, base, sums) {
      forall used: seq<bool> | |used| == |recs| ensures AllForm(recs, used, |recs|, base, sums) {
        ServedFormsAll(recs, used, |recs|, base, sums);
      }
    } else {
      var i :| 0 <= i < |recs| && Dropped(recs[i], base)
               && !(StartOf(recs[i], base) == sums.start && sums.count <= recs[i].metadata.sumCount
                    && forall j :: 0 <= j < i && IsSiamese(recs[j]) ==> StartOf(recs[j], base) == sums.start);
      NotServed(recs, base, sums, i);
    }
  }

  lemma ServedFormsAll(recs: seq<Recovery>, used: seq<bool>, k: nat, base: nat, sums: SumsAt)
    requires Sorted(recs) && Served(recs, base, sums) && k <= |recs| && k <= |used|
    ensures AllForm(recs, used, k, base, sums)
  {
    hide SumsAfter;
    forall i | 0 <= i < k && used[i] ensures CanForm(recs[i], base, SumsAfter(recs, used, base, sums, i)) {
      if Dropped(recs[i], base) {
        SumsAfterServed(recs, used, base, sums, i, i);
      }
    }
  }

  // No rows used so far leave the sums where they are.
  lemma {:induction false} SumsKept(recs: seq<Recovery>, used: seq<bool>, base: nat, sums: SumsAt, j: nat, k: nat)
    requires j <= k <= |recs| && k <= |used| && forall i :: j <= i < k ==> !used[i]
    ensures SumsAfter(recs, used, base, sums, k) == SumsAfter(recs, used, base, sums, j)
  {
    if j < k {
      SumsKept(recs, used, base, sums, j, k - 1);
    }
  }

  lemma NotServed(recs: seq<Recovery>, base: nat, sums: SumsAt, i: nat)
    requires i < |recs| && Dropped(recs[i], base)
    requires !(StartOf(recs[i], base) == sums.start && sums.count <= recs[i].metadata.sumCount
               && forall j :: 0 <= j < i && IsSiamese(recs[j]) ==> StartOf(recs[j], base) == sums.start)
    ensures exists used: seq<bool> | |used| == |recs| :: !AllForm(recs, used, |recs|, base, sums)
  {
    if StartOf(recs[i], base) == sums.start && sums.count <= recs[i].metadata.sumCount {
      var j :| 0 <= j < i && IsSiamese(recs[j]) && StartOf(recs[j], base) != sums.start;
      var used := seq(|recs|, k => k == j || k == i);
      SumsKept(recs, used, base, sums, j + 1, i);
      assert !CanForm(recs[i], base, SumsAfter(recs, used, base, sums, i));
    } else {
      var used := seq(|recs|, k => k == i);
      SumsKept(recs, used, base, sums, 0, i);
      assert !CanForm(recs[i], base, SumsAfter(recs, used, base, sums, i));
    }
  }

  // ---- what would keep it so ----

  ghost predicate SameSum(r: Recovery, p: Recovery, base: nat) {
    IsSiamese(r) && IsSiamese(p) && StartOf(r, base) == StartOf(p, base)
  }

  ghost predicate OtherSum(r: Recovery, p: Recovery, base: nat) {
    IsSiamese(r) && IsSiamese(p) && StartOf(r, base) != StartOf(p, base)
  }

  // Between two Siamese rows with the same start there is none with another.
  ghost predicate Grouped(recs: seq<Recovery>, base: nat) {
    forall i, j, k :: 0 <= i < j < k < |recs| && SameSum(recs[i], recs[k], base) ==> !OtherSum(recs[i], recs[j], base)
  }

  ghost predicate Orderly(recs: seq<Recovery>, base: nat, sums: SumsAt) {
    Served(recs, base, sums) && Grouped(recs, base)
  }

  lemma NoSumsOrderly(recs: seq<Recovery>, base: nat, sums: SumsAt)
    requires forall i :: 0 <= i < |recs| ==> !IsSiamese(recs[i])
    ensures Orderly(recs, base, sums)
  {
    hide StartOf;
  }

  // A check the decoder could make when a row arrives, with the place it would be
  // listed at.
  ghost predicate Fitting(recs: seq<Recovery>, place: nat, r: Recovery, base: nat, sums: SumsAt)
    requires place <= |recs|
  {
    FitsServed(recs, place, r, base, sums) && FitsGrouped(recs, place, r, base)
  }

  ghost predicate FitsServed(recs: seq<Recovery>, place: nat, r: Recovery, base: nat, sums: SumsAt)
    requires place <= |recs|
  {
    && (Dropped(r, base) ==>
          && StartOf(r, base) == sums.start && sums.count <= r.metadata.sumCount
          && forall j :: 0 <= j < place && IsSiamese(recs[j]) ==> StartOf(recs[j], base) == sums.start)
    && (IsSiamese(r) && StartOf(r, base) != sums.start ==> forall i :: place <= i < |recs| ==> !Dropped(recs[i], base))
  }

  ghost predicate FitsGrouped(recs: seq<Recovery>, place: nat, r: Recovery, base: nat)
    requires place <= |recs|
  {
    && (forall i, k :: 0 <= i < place <= k < |recs| && SameSum(recs[i], recs[k], base) ==> !OtherSum(recs[i], r, base))
    && (forall i, j :: 0 <= i < j < place && SameSum(recs[i], r, base) ==> !OtherSum(recs[i], recs[j], base))
    && (forall j, k :: place <= j < k < |recs| && SameSum(r, recs[k], base) ==> !OtherSum(r, recs[j], base))
  }

  // Listing a row keeps the order exactly if it passes the check.
  lemma InsertedInOrder(recs: seq<Recovery>, r: Recovery, base: nat, sums: SumsAt)
    requires Orderly(recs, base, sums)
    ensures Orderly(Inserted(recs, r), base, sums) <==> Fitting(recs, Place(recs, r), r, base, sums)
  {
    hide Served, Grouped, FitsServed, FitsGrouped;
    InsertedServed(recs, r, base, sums);
    InsertedGrouped(recs, r, base);
  }

  // The place of a listed row once another is put at p.
  function Past(i: int, p: nat): int {
    if i < p then i else i + 1
  }

  lemma InsertedAt(recs: seq<Recovery>, r: Recovery)
    ensures var p, l := Place(recs, r), Inserted(recs, r);
            && |l| == |recs| + 1 && l[p] == r && (forall i :: 0 <= i < |recs| ==> l[Past(i, p)] == recs[i])
            && forall k :: 0 <= k < |l| && k != p ==> l[k] == recs[if k < p then k else k - 1]
  {
    hide Place;
    PlaceBound(recs, r);
    PutAt(recs, Place(recs, r), r);
  }

  lemma PutAt<T>(s: seq<T>, p: nat, x: T)
    requires p <= |s|
    ensures var l := s[..p] + [x] + s[p..];
            && |l| == |s| + 1 && l[p] == x && (forall i :: 0 <= i < |s| ==> l[Past(i, p)] == s[i])
            && forall k :: 0 <= k < |l| && k != p ==> l[k] == s[if k < p then k else k - 1]
  {}

  lemma PlaceBound(recs: seq<Recovery>, r: Recovery)
    ensures Place(recs, r) <= |recs|
  {}

  lemma InsertedServed(recs: seq<Recovery>, r: Recovery, base: nat, sums: SumsAt)
    requires Served(recs, base, sums)
    ensures Served(Inserted(recs, r), base, sums) <==> FitsServed(recs, Place(recs, r), r, base, sums)
  {
    hide Inserted, Place, Served, FitsServed;
    InsertedAt(recs, r);
    PlaceBound(recs, r);
    var p, l := Place(recs, r), Inserted(recs, r);
    if Served(l, base, sums) {
      ServedAround(recs, l, p, r, base, sums);
    }
    if FitsServed(recs, p, r, base, sums) {
      ServedWith(recs, l, p, r, base, sums);
    }
  }

  lemma ServedAround(recs: seq<Recovery>, l: seq<Recovery>, p: nat, r: Recovery, base: nat, sums: SumsAt)
    requires Served(l, base, sums) && p <= |recs| && |l| == |recs| + 1 && l[p] == r
    requires forall i :: 0 <= i < |recs| ==> l[Past(i, p)] == recs[i]
    ensures FitsServed(recs, p, r, base, sums)
  {
    hide StartOf, IsSiamese;
    if Dropped(r, base) {
      forall j | 0 <= j < p && IsSiamese(recs[j]) ensures StartOf(recs[j], base) == sums.start {
        assert l[Past(j, p)] == recs[j];
      }
    }
    forall i | p <= i < |recs| && IsSiamese(r) && StartOf(r, base) != sums.start ensures !Dropped(recs[i], base) {
      assert l[Past(i, p)] == recs[i];
    }
  }

  lemma ServedWith(recs: seq<Recovery>, l: seq<Recovery>, p: nat, r: Recovery, base: nat, sums: SumsAt)
    requires Served(recs, base, sums) && p <= |recs| && |l| == |recs| + 1 && l[p] == r && FitsServed(recs, p, r, base, sums)
    requires forall k :: 0 <= k < |l| && k != p ==> l[k] == recs[if k < p then k else k - 1]
    ensures Served(l, base, sums)
  {
    hide StartOf, IsSiamese;
    forall i | 0 <= i < |l| && Dropped(l[i], base)
      ensures StartOf(l[i], base) == sums.start && sums.count <= l[i].metadata.sumCount
      ensures forall j :: 0 <= j < i && IsSiamese(l[j]) ==> StartOf(l[j], base) == sums.start
    {
      var i' := if i < p then i else i - 1;
      assert i != p ==> l[i] == recs[i'];
      forall j | 0 <= j < i && IsSiamese(l[j]) ensures StartOf(l[j], base) == sums.start {
        if j != p {
          assert l[j] == recs[if j < p then j else j - 1];
        }
      }
    }
  }

  lemma InsertedGrouped(recs: seq<Recovery>, r: Recovery, base: nat)
    requires Grouped(recs, base)
    ensures Grouped(Inserted(recs, r), base) <==> FitsGrouped(recs, Place(recs, r), r, base)
  {
    hide Inserted, Place, SameSum, OtherSum, Grouped, FitsGrouped;
    InsertedAt(recs, r);
    PlaceBound(recs, r);
    var p, l := Place(recs, r), Inserted(recs, r);
    if Grouped(l, base) {
      GroupedAround(recs, l, p, r, base);
    }
    if FitsGrouped(recs, p, r, base) {
      GroupedWith(recs, l, p, r, base);
    }
  }

  lemma GroupedWith(recs: seq<Recovery>, l: seq<Recovery>, p: nat, r: Recovery, base: nat)
    requires Grouped(recs, base) && p <= |recs| && |l| == |recs| + 1 && l[p] == r && FitsGrouped(recs, p, r, base)
    requires forall k :: 0 <= k < |l| && k != p ==> l[k] == recs[if k < p then k else k - 1]
    ensures Grouped(l, base)
  {
    hide SameSum, OtherSum;
    forall i, j, k | 0 <= i < j < k < |l| && SameSum(l[i], l[k], base) ensures !OtherSum(l[i], l[j], base) {
      if i == p {
        assert SameSum(r, recs[k - 1], base);
      } else if k == p {
        assert SameSum(recs[i], r, base);
      } else {
        assert SameSum(recs[if i < p then i else i - 1], recs[if k < p then k else k - 1], base);
      }
    }
  }

  lemma GroupedAround(recs: seq<Recovery>, l: seq<Recovery>, p: nat, r: Recovery, base: nat)
    requires Grouped(l, base) && p <= |recs| && |l| == |recs| + 1 && l[p] == r
    requires forall i :: 0 <= i < |recs| ==> l[Past(i, p)] == recs[i]
    ensures FitsGrouped(recs, p, r, base)
  {
    hide SameSum, OtherSum;
    forall i, k | 0 <= i < p <= k < |recs| && SameSum(recs[i], recs[k], base) ensures !OtherSum(recs[i], r, base) {
      assert l[Past(i, p)] == recs[i] && l[Past(k, p)] == recs[k];
    }
    forall i, j | 0 <= i < j < p && SameSum(recs[i], r, base) ensures !OtherSum(recs[i], recs[j], base) {
      assert l[Past(i, p)] == recs[i] && l[Past(j, p)] == recs[j];
    }
    forall j, k | p <= j < k < |recs| && SameSum(r, recs[k], base) ensures !OtherSum(r, recs[j], base) {
      assert l[Past(j, p)] == recs[j] && l[Past(k, p)] == recs[k];
    }
  }

  // ---- rows in the order they were sent ----

  // The encoder's sums never go back.
  ghost predicate StartsRise(recs: seq<Recovery>, base: nat) {
    forall i, j :: 0 <= i < j < |recs| && IsSiamese(recs[i]) && IsSiamese(recs[j]) ==> StartOf(recs[i], base) <= StartOf(recs[j], base)
  }

  // The row was sent after all that are listed, and, if it goes on with the sums,
  // after those that these were run for. Rows sent without a packet in between have
  // the same sum.
  ghost predicate SentAfter(recs: seq<Recovery>, r: Recovery, base: nat, sums: SumsAt) {
    && (forall i :: 0 <= i < |recs| ==> recs[i].elementEnd <= r.elementEnd)
    && (forall i :: 0 <= i < |recs| && IsSiamese(recs[i]) && IsSiamese(r) ==>
          StartOf(recs[i], base) <= StartOf(r, base) && (recs[i].elementEnd == r.elementEnd ==> StartOf(recs[i], base) == StartOf(r, base)))
    && (Dropped(r, base) ==> StartOf(r, base) == sums.start && sums.start + sums.count <= base + r.elementEnd)
  }

  // Such a row passes the check.
  lemma SentAfterFits(recs: seq<Recovery>, r: Recovery, base: nat, sums: SumsAt)
    requires Orderly(recs, base, sums) && StartsRise(recs, base) && SentAfter(recs, r, base, sums)
    ensures Fitting(recs, Place(recs, r), r, base, sums) && StartsRise(Inserted(recs, r), base)
  {
    hide Inserted, Place, Grouped, Served, FitsServed, FitsGrouped, StartsRise;
    InsertedAt(recs, r);
    PlaceBound(recs, r);
    var p, l := Place(recs, r), Inserted(recs, r);
    BehindPlace(recs, r);
    SentAfterServed(recs, p, r, base, sums);
    SentAfterGrouped(recs, p, r, base, sums);
    StillRise(recs, l, p, r, base, sums);
  }

  lemma StillRise(recs: seq<Recovery>, l: seq<Recovery>, p: nat, r: Recovery, base: nat, sums: SumsAt)
    requires StartsRise(recs, base) && SentAfter(recs, r, base, sums) && p <= |recs|
    requires forall i :: p <= i < |recs| ==> recs[i].elementEnd == r.elementEnd
    requires |l| == |recs| + 1 && l[p] == r && forall k :: 0 <= k < |l| && k != p ==> l[k] == recs[if k < p then k else k - 1]
    ensures StartsRise(l, base)
  {
    hide StartOf, IsSiamese;
    forall i, j | 0 <= i < j < |l| && IsSiamese(l[i]) && IsSiamese(l[j]) ensures StartOf(l[i], base) <= StartOf(l[j], base) {
      var i', j' := if i < p then i else i - 1, if j < p then j else j - 1;
      assert i != p ==> l[i] == recs[i'];
      assert j != p ==> l[j] == recs[j'];
    }
  }

  // What r is put in front of ends where r does, if nothing ends later.
  lemma BehindPlace(recs: seq<Recovery>, r: Recovery)
    requires forall i :: 0 <= i < |recs| ==> recs[i].elementEnd <= r.elementEnd
    ensures forall i :: Place(recs, r) <= i < |recs| ==> recs[i].elementEnd == r.elementEnd
  {
    hide Place;
    PlaceStops(recs, r);
  }

  lemma PlaceStops(recs: seq<Recovery>, r: Recovery)
    ensures forall j :: Place(recs, r) <= j < |recs| ==> !StopsAt(r, recs[j])
  {}

  lemma SentAfterServed(recs: seq<Recovery>, p: nat, r: Recovery, base: nat, sums: SumsAt)
    requires Served(recs, base, sums) && SentAfter(recs, r, base, sums) && p <= |recs|
    requires forall i :: p <= i < |recs| ==> recs[i].elementEnd == r.elementEnd
    ensures FitsServed(recs, p, r, base, sums)
  {
    if Dropped(r, base) {
      forall j | 0 <= j < p && IsSiamese(recs[j]) ensures StartOf(recs[j], base) == sums.start {
        assert Dropped(recs[j], base);
      }
    }
  }

  lemma SentAfterGrouped(recs: seq<Recovery>, p: nat, r: Recovery, base: nat, sums: SumsAt)
    requires StartsRise(recs, base) && SentAfter(recs, r, base, sums) && p <= |recs|
    requires forall i :: p <= i < |recs| ==> recs[i].elementEnd == r.elementEnd
    ensures FitsGrouped(recs, p, r, base)
  {
    hide StartOf;
  }

  // The rows of a region were eliminated, and those that end by element e are dropped.
  lemma EliminatedInOrder(recs: seq<Recovery>, used: seq<bool>, k: nat, base: nat, sums: SumsAt, e: nat)
    requires Orderly(recs, base, sums) && Sorted(recs) && k <= |recs| && k <= |used| && (k > 0 ==> recs[k - 1].elementEnd <= e)
    ensures Orderly(DeletedBefore(recs, e), base, SumsAfter(recs, used, base, sums, k))
  {
    DeletedExactly(recs, e);
    var d := |recs| - |DeletedBefore(recs, e)|;
    assert recs[d..] == DeletedBefore(recs, e);
    assert k > 0 ==> k - 1 < d;
    RestServed(recs, used, k, base, sums, d);
    RestGrouped(recs, base, d);
  }

  // Packets that end by element e are dropped.
  lemma DeletedInOrder(recs: seq<Recovery>, base: nat, sums: SumsAt, e: nat)
    requires Orderly(recs, base, sums) && Sorted(recs)
    ensures Orderly(DeletedBefore(recs, e), base, sums)
  {
    EliminatedInOrder(recs, [], 0, base, sums, e);
  }

  lemma RecountedInOrder(recs: seq<Recovery>, base: nat, sums: SumsAt, i: nat, lost: nat)
    requires i < |recs|
    ensures Orderly(recs[i := recs[i].(lostCount := lost)], base, sums) <==> Orderly(recs, base, sums)
  {
    var more := recs[i := recs[i].(lostCount := lost)];
    assert forall k :: 0 <= k < |recs| ==> more[k].metadata == recs[k].metadata && StartOf(more[k], base) == StartOf(recs[k], base);
    if Orderly(recs, base, sums) {
      SameSums(recs, more, base, sums);
    }
    if Orderly(more, base, sums) {
      SameSums(more, recs, base, sums);
    }
  }

  lemma SameSums(recs: seq<Recovery>, more: seq<Recovery>, base: nat, sums: SumsAt)
    requires |recs| == |more|
    requires forall k :: 0 <= k < |recs| ==> more[k].metadata == recs[k].metadata && StartOf(more[k], base) == StartOf(recs[k], base)
    requires Orderly(recs, base, sums)
    ensures Orderly(more, base, sums)
  {
    hide StartOf;
    forall i, j | 0 <= i < |more| && 0 <= j < |more|
      ensures SameSum(more[i], more[j], base) == SameSum(recs[i], recs[j], base)
      ensures OtherSum(more[i], more[j], base) == OtherSum(recs[i], recs[j], base)
    {}
    SameGroups(recs, more, base);
    assert forall k :: 0 <= k < |recs| ==> Dropped(more[k], base) == Dropped(recs[k], base);
  }

  lemma SameGroups(recs: seq<Recovery>, more: seq<Recovery>, base: nat)
    requires |recs| == |more| && Grouped(recs, base)
    requires forall i, j :: 0 <= i < |more| && 0 <= j < |more| ==>
               SameSum(more[i], more[j], base) == SameSum(recs[i], recs[j], base) && OtherSum(more[i], more[j], base) == OtherSum(recs[i], recs[j], base)
    ensures Grouped(more, base)
  {
    hide SameSum, OtherSum;
  }

  lemma RestServed(recs: seq<Recovery>, used: seq<bool>, k: nat, base: nat, sums: SumsAt, d: nat)
    requires Served(recs, base, sums) && Sorted(recs) && k <= d <= |recs| && k <= |used|
    ensures Served(recs[d..], base, SumsAfter(recs, used, base, sums, k))
  {
    hide SumsAfter, StartOf;
    var l := recs[d..];
    forall i | 0 <= i < |l| && Dropped(l[i], base)
      ensures var s := SumsAfter(recs, used, base, sums, k);
              && StartOf(l[i], base) == s.start && s.count <= l[i].metadata.sumCount
              && forall j :: 0 <= j < i && IsSiamese(l[j]) ==> StartOf(l[j], base) == s.start
    {
      assert l[i] == recs[d + i];
      SumsAfterServed(recs, used, base, sums, k, d + i);
      assert forall j :: 0 <= j < i ==> l[j] == recs[d + j];
    }
  }

  lemma RestGrouped(recs: seq<Recovery>, base: nat, d: nat)
    requires Grouped(recs, base) && d <= |recs|
    ensures Grouped(recs[d..], base)
  {
    hide SameSum, OtherSum;
    var l := recs[d..];
    forall i, j, k | 0 <= i < j < k < |l| && SameSum(l[i], l[k], base) ensures !OtherSum(l[i], l[j], base) {
      assert SameSum(recs[d + i], recs[d + k], base);
    }
  }

  // ---- moving the front of the window ----

  // What the scan for removable elements asks for: a row whose start is gone carries
  // on with the sums of the first Siamese row.
  ghost predicate StartsKept(recs: seq<Recovery>, base: nat) {
    forall t: nat, i: nat :: FirstSiamese(recs, t) && t < i < |recs| && Dropped(recs[i], base) ==> Continues(recs[i].metadata, recs[t].metadata)
  }

  // In an ordered list it finds that, and the sums of the first Siamese row can be
  // formed.
  lemma InOrderKept(recs: seq<Recovery>, base: nat, count: nat, next: nat, sums: SumsAt)
    requires Served(recs, base, sums) && Sorted(recs) && forall i :: 0 <= i < |recs| ==> Fits(recs[i], base, count, next)
    ensures StartsKept(recs, base)
    ensures forall t: nat :: FirstSiamese(recs, t) ==> CanForm(recs[t], base, sums)
  {
    hide Wrap, ValidMetadata;
    forall t: nat, i: nat | FirstSiamese(recs, t) && t < i < |recs| && Dropped(recs[i], base) ensures Continues(recs[i].metadata, recs[t].metadata) {
      assert StartOf(recs[t], base) == StartOf(recs[i], base);
      assert recs[t].elementEnd <= recs[i].elementEnd;
    }
  }

  // The sums go on from the first Siamese row, and the window from `removed` elements
  // on.
  lemma RemovedInOrder(recs: seq<Recovery>, base: nat, count: nat, next: nat, sums: SumsAt, firstKept: nat, removed: nat, t: nat, sums': SumsAt)
    requires Orderly(recs, base, sums) && Sorted(recs) && forall i :: 0 <= i < |recs| ==> Fits(recs[i], base, count, next)
    requires FirstSiamese(recs, t) && count <= COLUMN_PERIOD / 2 && removed <= firstKept
    requires forall i :: 0 <= i < |recs| ==> Spared(recs[i], base, firstKept, recs[t].metadata)
    requires sums'.start == StartOf(recs[t], base) && sums'.count <= recs[t].metadata.sumCount
    ensures forall r :: r in recs ==> removed <= r.elementStart && removed <= r.elementEnd
    ensures Orderly(Moved(recs, removed), base + removed, sums')
  {
    hide Wrap, ValidMetadata, Grouped, Served;
    forall i | 0 <= i < |recs| ensures removed <= recs[i].elementStart && removed <= recs[i].elementEnd {
      assert Spared(recs[i], base, firstKept, recs[t].metadata);
    }
    MovedGrouped(recs, base, removed);
    forall i | 0 <= i < |recs| && IsSiamese(recs[i]) && StartOf(recs[i], base) < base + removed
      ensures t <= i && StartOf(recs[i], base) == sums'.start && sums'.count <= recs[i].metadata.sumCount
    {
      DroppedContinues(recs, base, count, next, firstKept, removed, t, i);
    }
    MovedServed(recs, base, removed, t, sums');
  }

  lemma MovedGrouped(recs: seq<Recovery>, base: nat, removed: nat)
    requires Grouped(recs, base) && forall r :: r in recs ==> removed <= r.elementStart && removed <= r.elementEnd
    ensures Grouped(Moved(recs, removed), base + removed)
  {
    var l := Moved(recs, removed);
    forall i, j | 0 <= i < |l| && 0 <= j < |l|
      ensures SameSum(l[i], l[j], base + removed) == SameSum(recs[i], recs[j], base)
      ensures OtherSum(l[i], l[j], base + removed) == OtherSum(recs[i], recs[j], base)
    {}
    hide SameSum, OtherSum;
  }

  lemma MovedServed(recs: seq<Recovery>, base: nat, removed: nat, t: nat, sums: SumsAt)
    requires Grouped(recs, base) && FirstSiamese(recs, t) && sums.start == StartOf(recs[t], base)
    requires forall r :: r in recs ==> removed <= r.elementStart && removed <= r.elementEnd
    requires forall i :: 0 <= i < |recs| && IsSiamese(recs[i]) && StartOf(recs[i], base) < base + removed ==>
               t <= i && StartOf(recs[i], base) == sums.start && sums.count <= recs[i].metadata.sumCount
    ensures Served(Moved(recs, removed), base + removed, sums)
  {
    var l := Moved(recs, removed);
    assert forall i :: 0 <= i < |l| ==> l[i].metadata == recs[i].metadata && StartOf(l[i], base + removed) == StartOf(recs[i], base);
    forall i | 0 <= i < |l| && Dropped(l[i], base + removed)
      ensures StartOf(l[i], base + removed) == sums.start && sums.count <= l[i].metadata.sumCount
      ensures forall j :: 0 <= j < i && IsSiamese(l[j]) ==> StartOf(l[j], base + removed) == sums.start
    {
      forall j | 0 <= j < i && IsSiamese(l[j]) ensures StartOf(l[j], base + removed) == sums.start {
        assert t <= j && SameSum(recs[t], recs[i], base);
        assert t < j ==> !OtherSum(recs[t], recs[j], base);
      }
    }
  }

  lemma DroppedContinues(recs: seq<Recovery>, base: nat, count: nat, next: nat, firstKept: nat, removed: nat, t: nat, i: nat)
    requires FirstSiamese(recs, t) && i < |recs| && IsSiamese(recs[i]) && count <= COLUMN_PERIOD / 2 && removed <= firstKept
    requires Spared(recs[i], base, firstKept, recs[t].metadata) && StartOf(recs[i], base) < base + removed
    requires Fits(recs[i], base, count, next) && Fits(recs[t], base, count, next)
    ensures t <= i && StartOf(recs[i], base) == StartOf(recs[t], base) && recs[t].metadata.sumCount <= recs[i].metadata.sumCount
  {}

  // ---- a delayed row ----

  // A row of 200 packets has been listed and its start, packet 64, has been dropped
  // from a window that starts at packet 192. Then a row of the 190 packets from there
  // arrives, sent earlier. It has lost packets 210 and 211 in its light range, as has
  // the first row, but its place is in front of that, where its sum cannot be formed.
  lemma DelayedRow(row: nat, delayed: nat, payload: Gf, payload': Gf)
    requires row < ROW_PERIOD && delayed < ROW_PERIOD
    ensures var a, b := Recovery(Metadata(row, 64, 200, 60), 12, 72, 0, payload), Recovery(Metadata(delayed, 64, 190, 50), 12, 62, 0, payload');
            var list, sums := [a], SumsAt(64, 200);
            && Fits(a, 192, 72, 18) && Fits(b, 192, 72, 18) && Orderly(list, 192, sums)
            && !Fitting(list, Place(list, b), b, 192, sums)
            && Inserted(list, b) == [b, a] && !AllForm([b, a], [true, true], 2, 192, sums)
  {
    var a, b := Recovery(Metadata(row, 64, 200, 60), 12, 72, 0, payload), Recovery(Metadata(delayed, 64, 190, 50), 12, 62, 0, payload');
    assert [a][..0] == [] && Place([a], b) == 0;
    assert !CanForm(b, 192, SumsAfter([b, a], [true, true], 192, SumsAt(64, 200), 0));
  }
}
