// The lost packets of a window, the matrix columns made of them, and why
// cancelling what was received leaves the matrix row applied to what was lost.
module Losses {
  import opened Columns
  import opened Gf256
  import opened LinearAlgebra
  import opened Coefficients
  import opened LaneSums
  import opened DecoderSums

  // The packets before `end` that are not in `received`, oldest first.
  ghost function Lost(received: set<nat>, end: nat): seq<nat> {
    if end == 0 then [] else Lost(received, end - 1) + (if end - 1 in received then [] else [end - 1])
  }

  // In ascending order, nothing left out.
  ghost predicate Lists(l: seq<nat>, received: set<nat>, end: nat) {
    && (forall j :: 0 <= j < |l| ==> l[j] < end && l[j] !in received)
    && (forall i, j :: 0 <= i < j < |l| ==> l[i] < l[j])
    && forall a: nat :: a < end && a !in received ==> a in l
  }

  lemma {:induction false} LostLists(received: set<nat>, end: nat)
    ensures Lists(Lost(received, end), received, end)
  {
    if end > 0 {
      LostLists(received, end - 1);
      ListsSnoc(Lost(received, end - 1), received, end - 1);
    }
  }

  lemma ListsSnoc(l: seq<nat>, received: set<nat>, a: nat)
    requires Lists(l, received, a)
    ensures Lists(l + (if a in received then [] else [a]), received, a + 1)
  {
    if a in received {
      assert l + [] == l;
    } else {
      assert (l + [a])[|l|] == a;
      forall b: nat | b < a && b !in received ensures b in l + [a] {
        assert b in l;
      }
    }
  }

  // Further on there can only be more losses.
  lemma {:induction false} LostPrefix(received: set<nat>, end: nat, later: nat)
    requires end <= later
    ensures Lost(received, end) <= Lost(received, later)
    ensures forall j :: |Lost(received, end)| <= j < |Lost(received, later)| ==> Lost(received, later)[j] >= end
    decreases later
  {
    if end < later {
      LostPrefix(received, end, later - 1);
      var l, m := Lost(received, later - 1), if later - 1 in received then [] else [later - 1];
      assert Lost(received, later) == l + m;
    }
  }

  lemma {:induction false} LostSame(received: set<nat>, more: set<nat>, end: nat)
    requires forall a: nat :: a < end ==> (a in received <==> a in more)
    ensures Lost(received, end) == Lost(more, end)
  {
    if end > 0 {
      LostSame(received, more, end - 1);
    }
  }

  lemma {:induction false} NothingLost(received: set<nat>, start: nat, end: nat)
    requires start <= end && forall a: nat :: start <= a < end ==> a in received
    ensures Lost(received, end) == Lost(received, start)
    decreases end
  {
    if start < end {
      NothingLost(received, start, end - 1);
    }
  }

  lemma NothingLostBefore(received: set<nat>, end: nat)
    requires forall a: nat :: a < end ==> a in received
    ensures Lost(received, end) == []
  {
    NothingLost(received, 0, end);
  }

  // ---- matrix rows ----

  // What packet a contributes to a row that starts at packet `start`.
  ghost function Entry(raw: Draws, m: Metadata, start: nat, a: nat): Gf
    requires ValidMetadata(m)
  {
    if start <= a < start + m.sumCount then Coefficient(raw, m, a - start) else ZERO
  }

  ghost function EntryRow(raw: Draws, m: Metadata, start: nat, lost: seq<nat>): (r: Row)
    requires ValidMetadata(m)
    ensures |r| == |lost|
  {
    seq(|lost|, j requires 0 <= j < |lost| => Entry(raw, m, start, lost[j]))
  }

  ghost function Data(h: seq<Gf>, lost: seq<nat>): (x: Row)
    requires forall j :: 0 <= j < |lost| ==> lost[j] < |h|
    ensures |x| == |lost|
  {
    seq(|lost|, j requires 0 <= j < |lost| => h[lost[j]])
  }

  ghost function LostDot(raw: Draws, m: Metadata, start: nat, h: seq<Gf>, received: set<nat>, end: nat): Gf
    requires ValidMetadata(m) && end <= |h|
    decreases end
  {
    if end == 0 then ZERO
    else
      var a := end - 1;
      var rest := LostDot(raw, m, start, h, received, a);
      if a in received then rest else Add(rest, Mul(Entry(raw, m, start, a), h[a]))
  }

  lemma {:induction false} LostDotIsRow(raw: Draws, m: Metadata, start: nat, h: seq<Gf>, received: set<nat>, end: nat)
    requires ValidMetadata(m) && end <= |h|
    ensures Lists(Lost(received, end), received, end)
    ensures Dot(EntryRow(raw, m, start, Lost(received, end)), Data(h, Lost(received, end))) == LostDot(raw, m, start, h, received, end)
    decreases end
  {
    hide Add, Mul, Entry, Dot, EntryRow, Data;
    LostLists(received, end);
    if end == 0 {
      EmptyDot(EntryRow(raw, m, start, []), Data(h, []));
    } else {
      var a := end - 1;
      LostLists(received, a);
      LostDotIsRow(raw, m, start, h, received, a);
      if a !in received {
        RowExtended(raw, m, start, h, Lost(received, a), a);
      } else {
        assert Lost(received, a) + [] == Lost(received, a);
      }
    }
  }

  lemma RowExtended(raw: Draws, m: Metadata, start: nat, h: seq<Gf>, l: seq<nat>, a: nat)
    requires ValidMetadata(m) && a < |h| && forall j :: 0 <= j < |l| ==> l[j] < |h|
    ensures Dot(EntryRow(raw, m, start, l + [a]), Data(h, l + [a]))
            == Add(Dot(EntryRow(raw, m, start, l), Data(h, l)), Mul(Entry(raw, m, start, a), h[a]))
  {
    hide Add, Mul, Entry, DotFrom;
    DotSnoc(EntryRow(raw, m, start, l), Entry(raw, m, start, a), Data(h, l), h[a], 0);
    assert EntryRow(raw, m, start, l + [a]) == EntryRow(raw, m, start, l) + [Entry(raw, m, start, a)];
    assert Data(h, l + [a]) == Data(h, l) + [h[a]];
  }

  // Packets outside the row's range do not matter.
  lemma {:induction false} LostDotSkip(raw: Draws, m: Metadata, start: nat, h: seq<Gf>, received: set<nat>, t: nat, end: nat)
    requires ValidMetadata(m) && t <= end <= |h|
    requires end <= start || start + m.sumCount <= t
    ensures LostDot(raw, m, start, h, received, end) == LostDot(raw, m, start, h, received, t)
    decreases end
  {
    hide Add, Mul, Coefficient;
    if t < end {
      LostDotSkip(raw, m, start, h, received, t, end - 1);
      MulZero(h[end - 1]);
      AddZero(LostDot(raw, m, start, h, received, t));
    }
  }

  // The first k columns of the row: received data and lost data add up.
  lemma {:induction false} SplitPrefix(raw: Draws, m: Metadata, start: nat, h: seq<Gf>, received: set<nat>, k: nat)
    requires ValidMetadata(m) && k <= m.sumCount && start + k <= |h|
    ensures Dot(CoefficientRow(raw, m)[..k], h[start..start + k])
            == Add(Dot(CoefficientRow(raw, m)[..k], Mask(h, received)[start..start + k]), LostDot(raw, m, start, h, received, start + k))
    decreases k
  {
    hide Add, Mul, Coefficient, DotFrom;
    var r, g := CoefficientRow(raw, m), Mask(h, received);
    if k == 0 {
      LostDotSkip(raw, m, start, h, received, 0, start);
      assert Dot(r[..0], h[start..start]) == ZERO && Dot(r[..0], g[start..start]) == ZERO by { EmptyDot(r[..0],
              h[start..start]); EmptyDot(r[..0], g[start..start]); }
      AddZero(ZERO);
    } else {
      var i, a := k - 1, start + k - 1;
      SplitPrefix(raw, m, start, h, received, i);
      DotSnoc(r[..i], r[i], h[start..a], h[a], 0);
      DotSnoc(r[..i], r[i], g[start..a], g[a], 0);
      assert r[..k] == r[..i] + [r[i]];
      assert h[start..start + k] == h[start..a] + [h[a]];
      assert g[start..start + k] == g[start..a] + [g[a]];
      SplitStep(Dot(r[..i], g[start..a]), LostDot(raw, m, start, h, received, a), Mul(r[i], h[a]));
      if a !in received {
        MulZero(r[i]);
        AddZero(Dot(r[..i], g[start..a]));
      }
    }
  }

  lemma EmptyDot(r: Row, f: Row)
    requires |r| == |f| == 0
    ensures Dot(r, f) == ZERO
  {}

  lemma SplitStep(d: Gf, l: Gf, t: Gf)
    ensures Add(Add(d, l), t) == Add(Add(d, t), l) == Add(d, Add(l, t))
  {
    hide Add;
    AddAssoc(d, l, t);
    AddComm(l, t);
    AddAssoc(d, t, l);
  }

  // A payload less its received packets is the matrix row times the lost data.
  lemma ReceivedCancelled(raw: Draws, m: Metadata, start: nat, h: seq<Gf>, received: set<nat>, end: nat, payload: Gf)
    requires ValidMetadata(m) && start + m.sumCount <= end <= |h|
    requires payload == Dot(CoefficientRow(raw, m), h[start..start + m.sumCount])
    ensures Lists(Lost(received, end), received, end)
    ensures Add(payload, Dot(CoefficientRow(raw, m), Mask(h, received)[start..start + m.sumCount]))
            == Dot(EntryRow(raw, m, start, Lost(received, end)), Data(h, Lost(received, end)))
  {
    hide Add, Mul, CoefficientRow, DotFrom, Dot, EntryRow, Data, Lost;
    var n, r, g := m.sumCount, CoefficientRow(raw, m), Mask(h, received);
    SplitPrefix(raw, m, start, h, received, n);
    assert r[..n] == r;
    LostDotSkip(raw, m, start, h, received, start + n, end);
    LostDotIsRow(raw, m, start, h, received, end);
    var d, l := Dot(r, g[start..start + n]), LostDot(raw, m, start, h, received, end);
    AddComm(d, l);
    AddAssoc(l, d, d);
    AddSelf(d);
    AddZero(l);
  }
}
