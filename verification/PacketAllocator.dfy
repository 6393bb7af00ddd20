// The packet allocator: windows of 2048 units with a bitmap each, and two lists of
// windows, those to search and those taken to be full.
module PacketAllocator {
  import opened BitSets

  const UNIT_SIZE: nat := 16
  const WINDOW_MAX_UNITS: nat := VALID_BITS
  const FALLBACK_THRESHOLD_UNITS: nat := WINDOW_MAX_UNITS / 4
  const PREFERRED_THRESHOLD_UNITS: nat := 3 * WINDOW_MAX_UNITS / 4
  const NOT_IN_FULL_LIST: int := -1

  // Units for that many bytes, and one for the header.
  function UnitsFor(bytes: nat): (units: nat)
    ensures units >= 1 && (bytes > 0 ==> units >= 2) && bytes <= (units - 1) * UNIT_SIZE < bytes + UNIT_SIZE
  {
    (bytes + UNIT_SIZE - 1) / UNIT_SIZE + 1
  }

  class WindowHeader {
    var Used: seq<Word>
    var FreeUnitCount: nat
    var ResumeScanOffset: nat
    var FullListIndex: int
    const Preallocated: bool
    var Memory: seq<int>                   // what the units hold
    ghost var Owner: seq<Allocation?>      // whose they are

    constructor (preallocated: bool)
      ensures FullListIndex == NOT_IN_FULL_LIST && Preallocated == preallocated && ResumeScanOffset == 0 && fresh(this)
      ensures forall units: map<Allocation, nat> :: (forall a :: a in units ==> a.Header != this) ==>
                Good(this, Used, FreeUnitCount, ResumeScanOffset, Owner, Memory, units)
      ensures Used == seq(WORDS, _ => NONE) && FreeUnitCount == WINDOW_MAX_UNITS
    {
      Used, FreeUnitCount, ResumeScanOffset := seq(WORDS, _ => NONE), WINDOW_MAX_UNITS, 0;
      FullListIndex, Preallocated := NOT_IN_FULL_LIST, preallocated;
      Memory := seq(WINDOW_MAX_UNITS, _ => 0);
      Owner := seq(WINDOW_MAX_UNITS, _ => null);
      new;
      EmptyWindow(this, Used, Owner, Memory);
    }
  }

  // The header in front of an allocation, which its pointer leads to. Without a
  // window it is an allocation of its own.
  class Allocation {
    const Header: WindowHeader?
    const UnitStart: nat
    var UsedUnits: nat        // none: freed
    var Fallback: seq<int>

    constructor (header: WindowHeader?, unitStart: nat, usedUnits: nat)
      requires usedUnits > 0
      ensures Header == header && UnitStart == unitStart && UsedUnits == usedUnits && |Fallback| == usedUnits - 1
    {
      Header, UnitStart, UsedUnits, Fallback := header, unitStart, usedUnits, seq(usedUnits - 1, _ => 0);
    }
  }

  // ---- one window ----

  ghost predicate Holds(owner: seq<Allocation?>, a: Allocation, units: nat) {
    && a.UnitStart + units <= |owner|
    && forall i :: 0 <= i < |owner| ==> (owner[i] == a <==> a.UnitStart <= i < a.UnitStart + units)
  }

  // Each unit has at most one owner; the bitmap is the union of the allocations'
  // ranges, and the count of free units is its complement.
  ghost predicate Mapped(used: seq<Word>, freeUnitCount: nat, owner: seq<Allocation?>) {
    && IsBitSet(used) && |owner| == WINDOW_MAX_UNITS
    && (forall i :: 0 <= i < WINDOW_MAX_UNITS ==> Bits(used)[i] == (owner[i] != null))
    && freeUnitCount + Ones(Bits(used), 0, WINDOW_MAX_UNITS) == WINDOW_MAX_UNITS
  }

  ghost predicate Owned(w: WindowHeader, owner: seq<Allocation?>, units: map<Allocation, nat>) {
    && (forall i :: 0 <= i < |owner| && owner[i] != null ==> owner[i] in units && owner[i].Header == w)
    && (forall a :: a in units && a.Header == w ==> Holds(owner, a, units[a]))
  }

  ghost predicate Good(w: WindowHeader, used: seq<Word>, freeUnitCount: nat, resumeScanOffset: nat, owner: seq<Allocation?>,
                       memory: seq<int>, units: map<Allocation, nat>) {
    && Mapped(used, freeUnitCount, owner) && Owned(w, owner, units)
    && resumeScanOffset <= WINDOW_MAX_UNITS && |memory| == WINDOW_MAX_UNITS
  }

  lemma EmptyWindow(w: WindowHeader, used: seq<Word>, owner: seq<Allocation?>, memory: seq<int>)
    requires used == seq(WORDS, _ => NONE) && owner == seq(WINDOW_MAX_UNITS, _ => null) && |memory| == WINDOW_MAX_UNITS
    ensures forall units: map<Allocation, nat> :: (forall a :: a in units ==> a.Header != w) ==>
              Good(w, used, WINDOW_MAX_UNITS, 0, owner, memory, units)
  {
    hide Ones;
    forall i | 0 <= i < WINDOW_MAX_UNITS ensures !Bits(used)[i] {
      Split(i);
    }
    OnesNone(Bits(used), 0, WINDOW_MAX_UNITS);
  }

  // ---- taking and giving back units ----

  lemma OnesOfFilled(bits: seq<bool>, s: nat, e: nat, value: bool)
    requires s <= e <= |bits| && NoneIs(bits, s, e, value)
    ensures var before, after := Ones(bits, 0, |bits|), Ones(Filled(bits, s, e, value), 0, |bits|);
            after == if value then before + (e - s) else before - (e - s)
  {
    hide Ones;
    var n, filled := |bits|, Filled(bits, s, e, value);
    OnesSplit(bits, 0, s, n);
    OnesSplit(bits, s, e, n);
    OnesSplit(filled, 0, s, n);
    OnesSplit(filled, s, e, n);
    OnesSame(bits, 0, filled, 0, s);
    OnesSame(bits, e, filled, e, n - e);
    if value {
      OnesNone(bits, s, e);
      OnesAll(filled, s, e);
    } else {
      OnesAll(bits, s, e);
      OnesNone(filled, s, e);
    }
  }

  lemma MapTaken(used: seq<Word>, free: nat, owner: seq<Allocation?>, taken: seq<Word>, s: nat, e: nat, a: Allocation)
    requires Mapped(used, free, owner) && s <= e <= WINDOW_MAX_UNITS && NoneIs(Bits(used), s, e, true)
    requires IsBitSet(taken) && Bits(taken) == Filled(Bits(used), s, e, true)
    ensures free >= e - s && Mapped(taken, free - (e - s), Filled(owner, s, e, a))
  {
    hide Ones, Bits;
    OnesOfFilled(Bits(used), s, e, true);
    OnesBound(Bits(taken));
  }

  lemma OnesBound(bits: seq<bool>)
    ensures Ones(bits, 0, |bits|) <= |bits|
  {}

  lemma MapGiven(used: seq<Word>, free: nat, owner: seq<Allocation?>, given: seq<Word>, s: nat, e: nat)
    requires Mapped(used, free, owner) && s <= e <= WINDOW_MAX_UNITS && forall i :: s <= i < e ==> owner[i] != null
    requires IsBitSet(given) && Bits(given) == Filled(Bits(used), s, e, false)
    ensures Mapped(given, free + (e - s), Filled(owner, s, e, null))
  {
    hide Ones, Bits;
    OnesOfFilled(Bits(used), s, e, false);
  }

  lemma OwnTaken(w: WindowHeader, owner: seq<Allocation?>, units: map<Allocation, nat>, a: Allocation, n: nat)
    requires Owned(w, owner, units) && a !in units && a.Header == w && a.UnitStart + n <= |owner|
    requires forall i :: a.UnitStart <= i < a.UnitStart + n ==> owner[i] == null
    ensures Owned(w, Filled(owner, a.UnitStart, a.UnitStart + n, a), units[a := n])
  {
    var o, more := Filled(owner, a.UnitStart, a.UnitStart + n, a), units[a := n];
    forall b | b in more && b.Header == w ensures Holds(o, b, more[b]) {
      if b != a {
        assert Holds(owner, b, units[b]);
      }
      forall i | 0 <= i < |o| ensures o[i] == b <==> b.UnitStart <= i < b.UnitStart + more[b] {
        assert b != a ==> (owner[i] == b <==> b.UnitStart <= i < b.UnitStart + units[b]);
      }
    }
  }

  // The allocation keeps its first n units.
  lemma OwnGiven(w: WindowHeader, owner: seq<Allocation?>, units: map<Allocation, nat>, a: Allocation, n: nat)
    requires Owned(w, owner, units) && a in units && a.Header == w && n <= units[a]
    ensures Owned(w, Filled(owner, a.UnitStart + n, a.UnitStart + units[a], null), units[a := n])
    ensures n == 0 ==> Owned(w, Filled(owner, a.UnitStart + n, a.UnitStart + units[a], null), units - {a})
    ensures a.UnitStart + units[a] <= |owner| && forall i :: a.UnitStart <= i < a.UnitStart + units[a] ==> owner[i] == a
  {
    assert Holds(owner, a, units[a]);
    var o := Filled(owner, a.UnitStart + n, a.UnitStart + units[a], null);
    forall b | b in units && b.Header == w && b != a ensures Holds(o, b, units[b]) {
      assert Holds(owner, b, units[b]);
      forall i | 0 <= i < |o| ensures o[i] == b <==> b.UnitStart <= i < b.UnitStart + units[b] {
        assert owner[i] == a <==> a.UnitStart <= i < a.UnitStart + units[a];
      }
    }
  }

  // Another window does not notice.
  lemma OwnOther(w: WindowHeader, owner: seq<Allocation?>, units: map<Allocation, nat>, a: Allocation, n: nat)
    requires Owned(w, owner, units) && a.Header != w
    ensures Owned(w, owner, units[a := n]) && Owned(w, owner, units - {a})
  {
    hide Holds;
  }

  // Two allocations share no unit.
  lemma Disjoint(w: WindowHeader, owner: seq<Allocation?>, units: map<Allocation, nat>, a: Allocation, b: Allocation)
    requires Owned(w, owner, units) && a in units && b in units && a.Header == w == b.Header && a != b
    ensures a.UnitStart + units[a] <= |owner| && b.UnitStart + units[b] <= |owner|
    ensures units[a] == 0 || units[b] == 0 || a.UnitStart + units[a] <= b.UnitStart || b.UnitStart + units[b] <= a.UnitStart
  {
    assert Holds(owner, a, units[a]) && Holds(owner, b, units[b]);
    if units[a] > 0 && units[b] > 0 {
      assert owner[a.UnitStart] == a && owner[b.UnitStart] == b;
    }
  }

  // ---- the two lists ----

  ghost predicate Apart(s: seq<WindowHeader>, t: seq<WindowHeader>) {
    && (forall i, j :: 0 <= i < j < |s| ==> s[i] != s[j])
    && (forall i, j :: 0 <= i < j < |t| ==> t[i] != t[j])
    && (forall w :: w in s ==> w !in t)
  }

  lemma ApartMoved(s: seq<WindowHeader>, t: seq<WindowHeader>)
    requires Apart(s, t) && s != []
    ensures var n := |s| - 1; Apart(s[..n], t + [s[n]]) && s[n] !in s[..n] && s[n] !in t
  {
    var n := |s| - 1;
    forall w | w in s[..n] ensures w !in t + [s[n]] {
      assert w in s;
    }
    forall i, j | 0 <= i < j < |t| + 1 ensures (t + [s[n]])[i] != (t + [s[n]])[j] {
      assert i < |t| && t[i] in t;
    }
  }

  // Where the allocator looks for room: from its offset on, the first place with
  // as many clear units.
  ghost predicate Clear(used: seq<Word>, s: nat, n: nat)
    requires IsBitSet(used)
  {
    s + n <= VALID_BITS && NoneIs(Bits(used), s, s + n, true)
  }

  ghost predicate NoRoom(used: seq<Word>, from: nat, before: nat, n: nat)
    requires IsBitSet(used)
  {
    forall s :: from <= s < before ==> !Clear(used, s, n)
  }

  lemma NoRoomNext(used: seq<Word>, from: nat, m: nat, before: nat, n: nat, at: nat)
    requires IsBitSet(used) && NoRoom(used, from, m, n) && 0 < n
    requires NoneIs(Bits(used), m, at, false) && m <= at <= VALID_BITS
    requires before == at || (at <= before - 1 < VALID_BITS && Bits(used)[before - 1] && before - 1 < at + n)
    ensures NoRoom(used, from, before, n)
  {
    forall s | from <= s < before ensures !Clear(used, s, n) {
      if m <= s < at {
        assert Bits(used)[s];
      }
    }
  }

  lemma NoRoomLeft(used: seq<Word>, from: nat, m: nat, n: nat)
    requires IsBitSet(used) && NoRoom(used, from, m, n) && m + n > VALID_BITS
    ensures NoRoom(used, from, VALID_BITS, n)
  {
    assert forall s :: m <= s ==> !Clear(used, s, n);
  }

  // The first place with room in a window.
  method FindHole(used: seq<Word>, resumeScanOffset: nat, units: nat) returns (found: bool, regionStart: nat)
    requires IsBitSet(used) && 2 <= units <= WINDOW_MAX_UNITS
    ensures found ==> resumeScanOffset <= regionStart && Clear(used, regionStart, units) && NoRoom(used, resumeScanOffset, regionStart, units)
    ensures !found ==> NoRoom(used, resumeScanOffset, VALID_BITS, units)
  {
    hide Bits, NoneIs, NoRoom;
    regionStart := resumeScanOffset;
    NoRoomNone(used, regionStart, units);
    while regionStart < VALID_BITS
      invariant resumeScanOffset <= regionStart && NoRoom(used, resumeScanOffset, regionStart, units)
      decreases VALID_BITS - regionStart
    {
      ghost var from := regionStart;
      regionStart := FindFirstClear(used, regionStart);
      NoRoomNext(used, resumeScanOffset, from, regionStart, units, regionStart);
      var regionEnd := regionStart + units;
      if regionEnd > VALID_BITS {
        NoRoomLeft(used, resumeScanOffset, regionStart, units);
        return false, regionStart;
      }
      regionEnd := FindFirstSet(used, regionStart + 1, regionEnd);
      if regionEnd - regionStart < units {
        NoneHere(Bits(used), regionStart);
        NoRoomNext(used, resumeScanOffset, regionStart, regionEnd + 1, units, regionStart);
        regionStart := regionEnd + 1;
      } else {
        ClearHere(used, regionStart, units, regionEnd);
        return true, regionStart;
      }
    }
    NoRoomLeft(used, resumeScanOffset, regionStart, units);
    found := false;
  }

  lemma NoRoomNone(used: seq<Word>, from: nat, n: nat)
    requires IsBitSet(used)
    ensures NoRoom(used, from, from, n)
  {}

  lemma NoneHere(bits: seq<bool>, s: nat)
    ensures NoneIs(bits, s, s, false)
  {}

  lemma ClearHere(used: seq<Word>, s: nat, n: nat, end: nat)
    requires IsBitSet(used) && s < VALID_BITS && s + n <= VALID_BITS && end >= s + n && !Bits(used)[s]
    requires NoneIs(Bits(used), s + 1, s + n, true)
    ensures Clear(used, s, n)
  {
    hide Bits;
  }

  lemma ClearUnits(used: seq<Word>, free: nat, owner: seq<Allocation?>, s: nat, n: nat)
    requires Mapped(used, free, owner) && n >= 1 && Clear(used, s, n)
    ensures s < VALID_BITS && s + n <= VALID_BITS == WINDOW_MAX_UNITS && NoneIs(Bits(used), s, s + n, true) && forall i :: s <= i < s + n ==> owner[i] == null
  {
    hide Bits, Ones;
  }

  lemma GoodParts(w: WindowHeader, used: seq<Word>, freeUnitCount: nat, resumeScanOffset: nat, owner: seq<Allocation?>,
                  memory: seq<int>, units: map<Allocation, nat>)
    requires Good(w, used, freeUnitCount, resumeScanOffset, owner, memory, units)
    ensures Mapped(used, freeUnitCount, owner) && Owned(w, owner, units) && IsBitSet(used) && |owner| == WINDOW_MAX_UNITS
    ensures resumeScanOffset <= WINDOW_MAX_UNITS && |memory| == WINDOW_MAX_UNITS && freeUnitCount <= WINDOW_MAX_UNITS
  {
    hide Bits, Ones, Owned;
  }

  lemma GoodOther(w: WindowHeader, used: seq<Word>, freeUnitCount: nat, resumeScanOffset: nat, owner: seq<Allocation?>,
                  memory: seq<int>, units: map<Allocation, nat>, a: Allocation, n: nat)
    requires Good(w, used, freeUnitCount, resumeScanOffset, owner, memory, units) && a.Header != w
    ensures Good(w, used, freeUnitCount, resumeScanOffset, owner, memory, units[a := n])
    ensures Good(w, used, freeUnitCount, resumeScanOffset, owner, memory, units - {a})
  {
    hide Mapped, Owned;
    OwnOther(w, owner, units, a, n);
  }

  // The window as it is, with those units taken by allocations.
  ghost predicate GoodIn(w: WindowHeader, live: map<Allocation, nat>)
    reads w`Used, w`FreeUnitCount, w`ResumeScanOffset, w`Owner, w`Memory
  {
    Good(w, w.Used, w.FreeUnitCount, w.ResumeScanOffset, w.Owner, w.Memory, live)
  }

  lemma GoodInParts(w: WindowHeader, live: map<Allocation, nat>)
    requires GoodIn(w, live)
    ensures Mapped(w.Used, w.FreeUnitCount, w.Owner) && Owned(w, w.Owner, live) && IsBitSet(w.Used) && |w.Owner| == WINDOW_MAX_UNITS
    ensures w.ResumeScanOffset <= WINDOW_MAX_UNITS && |w.Memory| == WINDOW_MAX_UNITS && w.FreeUnitCount <= WINDOW_MAX_UNITS
  {
    hide Mapped, Owned;
    GoodParts(w, w.Used, w.FreeUnitCount, w.ResumeScanOffset, w.Owner, w.Memory, live);
  }

  lemma GoodInWhole(w: WindowHeader, live: map<Allocation, nat>)
    requires Mapped(w.Used, w.FreeUnitCount, w.Owner) && Owned(w, w.Owner, live)
    requires w.ResumeScanOffset <= WINDOW_MAX_UNITS && |w.Memory| == WINDOW_MAX_UNITS
    ensures GoodIn(w, live)
  {
    hide Mapped, Owned;
  }

  lemma OthersGood(windows: set<WindowHeader>, live: map<Allocation, nat>, a: Allocation, n: nat)
    requires forall w :: w in windows && w != a.Header ==> GoodIn(w, live)
    ensures forall w :: w in windows && w != a.Header ==> GoodIn(w, live[a := n]) && GoodIn(w, live - {a})
  {
    hide Good;
    forall w | w in windows && w != a.Header ensures GoodIn(w, live[a := n]) && GoodIn(w, live - {a}) {
      GoodOther(w, w.Used, w.FreeUnitCount, w.ResumeScanOffset, w.Owner, w.Memory, live, a, n);
    }
  }

  // What the header of an allocation with n units says.
  ghost predicate HeaderOk(a: Allocation, n: nat, windows: set<WindowHeader>)
    reads a`UsedUnits, a`Fallback
  {
    && a.UsedUnits == n >= 1
    && (a.Header != null ==> a.Header in windows && n <= FALLBACK_THRESHOLD_UNITS)
    && (a.Header == null ==> |a.Fallback| == n - 1)
  }

  ghost predicate HeadersOk(live: map<Allocation, nat>, windows: set<WindowHeader>)
    reads live.Keys`UsedUnits, live.Keys`Fallback
  {
    forall a :: a in live ==> HeaderOk(a, live[a], windows)
  }

  class Allocator {
    var PreferredWindows: seq<WindowHeader>
    var FullWindows: seq<WindowHeader>
    ghost var Windows: set<WindowHeader>
    ghost var Live: map<Allocation, nat>     // the allocations in use, with their units

    ghost predicate Listed()
      reads this`PreferredWindows, this`FullWindows, this`Windows, PreferredWindows`FullListIndex, FullWindows`FullListIndex
    {
      && Windows == (set w | w in PreferredWindows) + (set w | w in FullWindows)
      && Apart(PreferredWindows, FullWindows)
      && (forall i :: 0 <= i < |PreferredWindows| ==> PreferredWindows[i].FullListIndex == NOT_IN_FULL_LIST)
      && (forall i :: 0 <= i < |FullWindows| ==> FullWindows[i].FullListIndex == i)
    }

    ghost predicate Valid()
      reads this, Windows, PreferredWindows, FullWindows, Live.Keys
    {
      && Listed()
      && (forall w :: w in Windows ==> GoodIn(w, Live))
      && HeadersOk(Live, Windows)
    }

    lemma ValidParts()
      requires Valid()
      ensures Listed() && (forall w :: w in Windows ==> GoodIn(w, Live)) && HeadersOk(Live, Windows)
    {
      hide GoodIn, HeadersOk, Allocator.Listed;
    }

    lemma ValidWhole()
      requires Listed() && (forall w :: w in Windows ==> GoodIn(w, Live)) && HeadersOk(Live, Windows)
      ensures Valid()
    {
      hide GoodIn, HeadersOk, Allocator.Listed;
    }

    method Update(window: WindowHeader, used: seq<Word>, freeUnitCount: nat, resumeScanOffset: nat, ghost owner: seq<Allocation?>)
      modifies window`Used, window`FreeUnitCount, window`ResumeScanOffset, window`Owner
      ensures window.Used == used && window.FreeUnitCount == freeUnitCount && window.ResumeScanOffset == resumeScanOffset
      ensures window.Owner == owner
    {
      window.Used, window.FreeUnitCount, window.ResumeScanOffset, window.Owner := used, freeUnitCount, resumeScanOffset, owner;
    }

    // No two allocations share a unit; the bitmap of a window is the union of their
    // ranges, and the free units are all others.
    lemma UnitsApart(w: WindowHeader, a: Allocation, b: Allocation)
      requires Valid() && w in Windows && a in Live && b in Live && a.Header == w == b.Header && a != b
      ensures a.UnitStart + a.UsedUnits <= b.UnitStart || b.UnitStart + b.UsedUnits <= a.UnitStart
    {
      hide Good, Mapped, Owned;
      GoodInParts(w, Live);
      HeaderIn(Live, Windows, a);
      HeaderIn(Live, Windows, b);
      Disjoint(w, w.Owner, Live, a, b);
    }

    lemma UsedIsUnion(w: WindowHeader, i: nat)
      requires Valid() && w in Windows && i < WINDOW_MAX_UNITS
      ensures IsBitSet(w.Used) && w.FreeUnitCount == WINDOW_MAX_UNITS - Ones(Bits(w.Used), 0, WINDOW_MAX_UNITS)
      ensures Bits(w.Used)[i] <==> exists a :: a in Live && a.Header == w && a.UnitStart <= i < a.UnitStart + a.UsedUnits
    {
      hide Good, Bits, Ones, Holds, Apart;
      GoodInParts(w, Live);
      var owner := w.Owner[i];
      if owner != null {
        HeaderIn(Live, Windows, owner);
        HoldsAt(w.Owner, owner, Live[owner], i);
      }
      forall a | a in Live && a.Header == w ensures a.UsedUnits == Live[a] && (owner == a <==> a.UnitStart <= i < a.UnitStart + a.UsedUnits) {
        HeaderIn(Live, Windows, a);
        HoldsAt(w.Owner, a, Live[a], i);
      }
    }

    // Takes a clear region of a window for an allocation.
    method Carve(window: WindowHeader, regionStart: nat, units: nat) returns (a: Allocation)
      requires Valid() && window in Windows && 1 <= units <= FALLBACK_THRESHOLD_UNITS && IsBitSet(window.Used)
      requires Clear(window.Used, regionStart, units)
      modifies this`Live, window`Used, window`FreeUnitCount, window`ResumeScanOffset, window`Owner
      ensures Valid() && fresh(a) && a.Header == window && a.UnitStart == regionStart && Live == old(Live)[a := units]
      ensures window.FreeUnitCount + units == old(window.FreeUnitCount) && window.ResumeScanOffset == regionStart + units
    {
      hide *;
      ValidParts();
      GoodInParts(window, Live);
      ClearUnits(window.Used, window.FreeUnitCount, window.Owner, regionStart, units);
      ghost var live := Live;
      a := new Allocation(window, regionStart, units);
      assert a !in live;
      var taken := SetRange(window.Used, regionStart, regionStart + units);
      MapTaken(window.Used, window.FreeUnitCount, window.Owner, taken, regionStart, regionStart + units, a);
      OwnTaken(window, window.Owner, Live, a, units);
      Update(window, taken, window.FreeUnitCount - units, regionStart + units, Filled(window.Owner, regionStart, regionStart + units, a));
      Live := Live[a := units];
      GoodInWhole(window, Live);
      OthersGood(Windows, live, a, units);
      HeadersMore(live, a, units, Windows);
      ValidWhole();
    }

    // Moves the last few windows to search to the full ones, last first.
    method MoveLastFewWindowsToFull(count: nat)
      requires Valid() && count <= |PreferredWindows|
      modifies this`PreferredWindows, this`FullWindows, PreferredWindows`FullListIndex
      ensures Valid() && PreferredWindows == old(PreferredWindows)[..|old(PreferredWindows)| - count]
      ensures FullWindows == old(FullWindows) + Backwards(old(PreferredWindows)[|old(PreferredWindows)| - count..])
    {
      hide *;
      var existingPreferredCount := |PreferredWindows|;
      ghost var preferred := PreferredWindows;
      var i := 0;
      BackwardsNone(preferred);
      while i < count
        invariant i <= count && PreferredWindows == preferred[..existingPreferredCount - i]
        invariant FullWindows == old(FullWindows) + Backwards(preferred[existingPreferredCount - i..]) && Valid()
      {
        BackwardsNext(preferred, existingPreferredCount - i);
        MoveLast(PreferredWindows[|PreferredWindows| - 1]);
        i := i + 1;
      }
    }

    // Moves one of them.
    method MoveLast(window: WindowHeader)
      requires Valid() && PreferredWindows != [] && window == PreferredWindows[|PreferredWindows| - 1]
      modifies this`PreferredWindows, this`FullWindows, window`FullListIndex
      ensures Valid() && PreferredWindows == old(PreferredWindows)[..|old(PreferredWindows)| - 1]
      ensures FullWindows == old(FullWindows) + [old(PreferredWindows)[|old(PreferredWindows)| - 1]]
    {
      hide Good, HeaderOk, GoodIn, HeadersOk, Apart;
      var windowIndex := |PreferredWindows| - 1;
      ApartMoved(PreferredWindows, FullWindows);
      ApartHere(PreferredWindows, FullWindows);
      window.FullListIndex := |FullWindows|;
      FullWindows := FullWindows + [window];
      PreferredWindows := PreferredWindows[..windowIndex];
    }

    // Two windows to start with.
    constructor ()
      ensures Valid() && Live == map[] && FullWindows == [] && fresh(Windows)
      ensures |PreferredWindows| == PREALLOCATED_WINDOWS
      ensures forall w :: w in Windows ==> w.Preallocated && w.FreeUnitCount == WINDOW_MAX_UNITS && w.ResumeScanOffset == 0
    {
      PreferredWindows, FullWindows, Windows, Live := [], [], {}, map[];
      new;
      var i := 0;
      while i < PREALLOCATED_WINDOWS
        invariant i <= PREALLOCATED_WINDOWS && |PreferredWindows| == i && FullWindows == [] && Valid() && Live == map[] && fresh(Windows)
        invariant forall w :: w in Windows ==> w.Preallocated && w.FreeUnitCount == WINDOW_MAX_UNITS && w.ResumeScanOffset == 0
      {
        var window := AddWindow(true);
        i := i + 1;
      }
    }

    // An empty window, the next to search.
    method AddWindow(preallocated: bool) returns (window: WindowHeader)
      requires Valid()
      modifies this`PreferredWindows, this`Windows
      ensures Valid() && fresh(window) && window.Preallocated == preallocated && Windows == old(Windows) + {window}
      ensures PreferredWindows == old(PreferredWindows) + [window]
      ensures window.ResumeScanOffset == 0
      ensures IsBitSet(window.Used) && window.FreeUnitCount == WINDOW_MAX_UNITS && forall n :: 0 <= n <= WINDOW_MAX_UNITS ==> Clear(window.Used, 0, n)
    {
      hide Good, GoodIn, Apart, Clear, IsBitSet;
      window := new WindowHeader(preallocated);
      HeadersElsewhere(Live, Windows, window);
      NewGood(window, Live);
      ApartNew(PreferredWindows, FullWindows, window);
      PreferredWindows, Windows := PreferredWindows + [window], Windows + {window};
      NothingSet(window.Used);
    }

    method AllocateFromNewWindow(units: nat) returns (a: Allocation)
      requires Valid() && 1 <= units <= FALLBACK_THRESHOLD_UNITS
      modifies this`PreferredWindows, this`Windows, this`Live
      ensures Valid() && fresh(a) && a.Header != null && a.Header !in old(Windows) && Live == old(Live)[a := units] && a.UnitStart == 0
      ensures fresh(a.Header) && PreferredWindows == old(PreferredWindows) + [a.Header] && Windows == old(Windows) + {a.Header}
      ensures !a.Header.Preallocated
    {
      hide Good, GoodIn, HeadersOk, Apart, Clear, IsBitSet, Allocator.Listed;
      var window := AddWindow(false);
      a := Carve(window, 0, units);
    }

    // An allocation that is too large for a window.
    method FallbackAllocate(bytes: nat) returns (a: Allocation)
      requires Valid()
      modifies this`Live
      ensures Valid() && fresh(a) && a.Header == null && Live == old(Live)[a := UnitsFor(bytes)]
    {
      hide *;
      ValidParts();
      ghost var live := Live;
      UnitsPositive(bytes);
      a := new Allocation(null, 0, UnitsFor(bytes));
      assert a !in live;
      Live := Live[a := UnitsFor(bytes)];
      OthersGood(Windows, live, a, UnitsFor(bytes));
      HeadersMore(live, a, UnitsFor(bytes), Windows);
      ValidWhole();
    }

    // An allocation for that many bytes: in the last window to search that has
    // room, at the first place with room; the windows searched in vain are taken
    // to be full from then on. None for no bytes.
    method Allocate(bytes: nat) returns (a: Allocation?, ghost place: int)
      requires Valid()
      modifies this`PreferredWindows, this`FullWindows, this`Windows, this`Live, Windows`Used, Windows`FreeUnitCount
      modifies Windows`ResumeScanOffset, Windows`FullListIndex, Windows`Owner
      ensures Valid() && (a == null <==> bytes == 0)
      ensures a == null ==> Live == old(Live) && PreferredWindows == old(PreferredWindows) && FullWindows == old(FullWindows)
      ensures a != null ==> fresh(a) && Live == old(Live)[a := UnitsFor(bytes)]
      ensures a != null ==> (a.Header == null <==> UnitsFor(bytes) > FALLBACK_THRESHOLD_UNITS)
      ensures old(Windows) <= Windows && fresh(Windows - old(Windows))
      ensures a != null && a.Header != null ==>
                && -1 <= place < |old(PreferredWindows)|
                && forall j :: place < j < |old(PreferredWindows)| ==>
                     NoRoomAtAll(old(PreferredWindows[j].Used), old(PreferredWindows[j].ResumeScanOffset), UnitsFor(bytes))
      ensures a != null && a.Header != null && place >= 0 ==>
                && a.Header == old(PreferredWindows)[place]
                && FirstRoom(old(PreferredWindows[place].Used), old(PreferredWindows[place].ResumeScanOffset), a.UnitStart, UnitsFor(bytes))
      ensures a != null && a.Header != null && place == -1 ==> fresh(a.Header) && a.UnitStart == 0
      ensures a != null && a.Header != null && place >= 0 ==>
                && a.Header.FreeUnitCount + UnitsFor(bytes) == old(PreferredWindows[place].FreeUnitCount)
                && a.Header.ResumeScanOffset == a.UnitStart + UnitsFor(bytes)
                && (a.Header in PreferredWindows <==> a.UnitStart + UnitsFor(bytes) * 2 <= WINDOW_MAX_UNITS)
      ensures a != null && a.Header != null ==>
                var k := if place == -1 then 0 else if a.UnitStart + UnitsFor(bytes) * 2 > WINDOW_MAX_UNITS then place else place + 1;
                && PreferredWindows == old(PreferredWindows)[..k] + (if place == -1 then [a.Header] else [])
                && FullWindows == old(FullWindows) + Backwards(old(PreferredWindows)[k..])
    {
      hide *;
      place := -1;
      if bytes <= 0 {
        a := null;
        return;
      }
      var units := UnitsFor(bytes);
      UnitsPositive(bytes);
      if units > FALLBACK_THRESHOLD_UNITS {
        a := FallbackAllocate(bytes);
        return;
      }
      var i, regionStart := Search(units);
      place := i;
      PreferredKnown();
      ghost var preferred := PreferredWindows;
      assert preferred[|preferred| - |preferred|..] == preferred && preferred[..0] == [];
      if i >= 0 {
        PreferredIn(i);
        a := CarveAndMove(PreferredWindows[i], i, regionStart, units);
      } else {
        MoveLastFewWindowsToFull(|PreferredWindows|);
        a := AllocateFromNewWindow(units);
      }
    }

    // The window to take units from, or none.
    method Search(units: nat) returns (i: int, regionStart: nat)
      requires Valid() && 2 <= units <= FALLBACK_THRESHOLD_UNITS
      ensures -1 <= i < |PreferredWindows|
      ensures i >= 0 ==> FirstRoom(PreferredWindows[i].Used, PreferredWindows[i].ResumeScanOffset, regionStart, units)
      ensures forall j :: i < j < |PreferredWindows| ==> NoRoomAtAll(PreferredWindows[j].Used, PreferredWindows[j].ResumeScanOffset, units)
    {
      hide *;
      SmallEnough(units);
      regionStart := 0;
      i := |PreferredWindows| - 1;
      while i >= 0
        invariant -1 <= i < |PreferredWindows|
        invariant forall j :: i < j < |PreferredWindows| ==> NoRoomAtAll(PreferredWindows[j].Used, PreferredWindows[j].ResumeScanOffset, units)
      {
        var window := PreferredWindows[i];
        PreferredIn(i);
        GoodInParts(window, Live);
        if window.FreeUnitCount < units {
          TooFew(window.Used, window.FreeUnitCount, window.Owner, window.ResumeScanOffset, units);
        } else {
          var found;
          found, regionStart := FindHole(window.Used, window.ResumeScanOffset, units);
          RoomFound(window.Used, window.ResumeScanOffset, regionStart, units, found);
          if found {
            return;
          }
        }
        i := i - 1;
      }
    }

    lemma PreferredKnown()
      requires Valid()
      ensures forall w :: w in PreferredWindows ==> w in Windows
    {
      hide GoodIn, HeadersOk, Apart;
    }

    lemma PreferredIn(i: nat)
      requires Valid() && i < |PreferredWindows|
      ensures PreferredWindows[i] in Windows && GoodIn(PreferredWindows[i], Live)
    {
      hide GoodIn, HeadersOk, Apart;
    }

    // Takes the units, and takes the windows after this one to be full, and this
    // one too if it has no room for as many units behind them.
    method CarveAndMove(window: WindowHeader, i: nat, regionStart: nat, units: nat) returns (a: Allocation)
      requires Valid() && i < |PreferredWindows| && window == PreferredWindows[i] && 2 <= units <= FALLBACK_THRESHOLD_UNITS
      requires FirstRoom(window.Used, window.ResumeScanOffset, regionStart, units)
      modifies this`PreferredWindows, this`FullWindows, this`Live
      modifies window`Used, window`FreeUnitCount, window`ResumeScanOffset, window`Owner, PreferredWindows`FullListIndex
      ensures Valid() && fresh(a) && a.Header == window && a.UnitStart == regionStart && Live == old(Live)[a := units]
      ensures window.FreeUnitCount + units == old(window.FreeUnitCount) && window.ResumeScanOffset == regionStart + units
      ensures window in PreferredWindows <==> regionStart + units * 2 <= WINDOW_MAX_UNITS
      ensures var k := if regionStart + units * 2 > WINDOW_MAX_UNITS then i else i + 1;
              && PreferredWindows == old(PreferredWindows)[..k]
              && FullWindows == old(FullWindows) + Backwards(old(PreferredWindows)[k..])
    {
      hide *;
      PreferredIn(i);
      FirstRoomParts(window.Used, window.ResumeScanOffset, regionStart, units);
      a := Carve(window, regionStart, units);
      Distinct(i);
      var fullCount := |PreferredWindows| - 1 - i;
      if regionStart + units * 2 > WINDOW_MAX_UNITS {
        fullCount := fullCount + 1;
      }
      MoveLastFewWindowsToFull(fullCount);
    }

    lemma Distinct(i: nat)
      requires Valid() && i < |PreferredWindows|
      ensures PreferredWindows[i] !in PreferredWindows[..i] && PreferredWindows[i] in PreferredWindows[..i + 1]
    {
      hide GoodIn, HeadersOk;
      assert PreferredWindows[..i + 1][i] == PreferredWindows[i];
    }

    // The allocation keeps its first units and gives the others back.
    method GiveBack(a: Allocation, window: WindowHeader, keep: nat)
      requires Valid() && a in Live && a.Header == window && keep < Live[a]
      modifies this`Live, a`UsedUnits, window`Used, window`FreeUnitCount, window`ResumeScanOffset, window`Owner
      ensures Valid() && a.UsedUnits == keep
      ensures Live == if keep == 0 then old(Live) - {a} else old(Live)[a := keep]
      ensures window.FreeUnitCount == old(window.FreeUnitCount) + old(Live)[a] - keep
      ensures window.ResumeScanOffset == if old(window.ResumeScanOffset) > a.UnitStart + keep then a.UnitStart + keep else old(window.ResumeScanOffset)
    {
      hide *;
      ValidParts();
      HeaderIn(Live, Windows, a);
      GoodInParts(window, Live);
      ghost var live := Live;
      var unitsCurrent := a.UsedUnits;
      var from := a.UnitStart + keep;
      OwnGiven(window, window.Owner, live, a, keep);
      OwnRange(window.Owner, a.UnitStart, unitsCurrent);
      var offset := if window.ResumeScanOffset > from then from else window.ResumeScanOffset;
      var given := ClearRange(window.Used, from, a.UnitStart + unitsCurrent);
      MapGiven(window.Used, window.FreeUnitCount, window.Owner, given, from, a.UnitStart + unitsCurrent);
      Update(window, given, window.FreeUnitCount + (unitsCurrent - keep), offset, Filled(window.Owner, from, a.UnitStart + unitsCurrent, null));
      a.UsedUnits := keep;
      Live := if keep == 0 then Live - {a} else Live[a := keep];
      GoodInWhole(window, Live);
      OthersGood(Windows, live, a, keep);
      HeadersLess(live, a, keep, Windows);
      ValidWhole();
    }

    // Frees an allocation; a null pointer or one freed before is ignored. A window
    // that has become empty enough is searched again, from the front.
    method Free(a: Allocation?)
      requires Valid() && (a != null ==> a in Live || a.UsedUnits == 0)
      modifies this`PreferredWindows, this`FullWindows, this`Live, (if a == null then {} else {a})`UsedUnits
      modifies Windows`Used, Windows`FreeUnitCount, Windows`ResumeScanOffset, Windows`FullListIndex, Windows`Owner
      ensures Valid() && (a != null ==> a.UsedUnits == 0)
      ensures Live == if a == null then old(Live) else old(Live) - {a}
      ensures forall w :: a != null && w in Windows && a.Header == w && a in old(Live) ==>
                && w.FreeUnitCount == old(w.FreeUnitCount) + old(Live)[a]
                && if w !in old(PreferredWindows) && w.FreeUnitCount >= PREFERRED_THRESHOLD_UNITS
                   then PreferredWindows == old(PreferredWindows) + [w] && w.ResumeScanOffset == 0
                   else PreferredWindows == old(PreferredWindows)
    {
      hide *;
      if a == null {
        return;
      }
      ValidParts();
      FreedNotLive(Live, a, Windows);
      if a.UsedUnits == 0 {
        assert Live == Live - {a};
        return;
      }
      HeaderIn(Live, Windows, a);
      var window := a.Header;
      if window == null {
        FreeFallback(a);
        return;
      }
      GiveBack(a, window, 0);
      InOneList(window);
      if window.FreeUnitCount >= PREFERRED_THRESHOLD_UNITS && window.FullListIndex != NOT_IN_FULL_LIST {
        Promote(window);
      }
    }

    method FreeFallback(a: Allocation)
      requires Valid() && a in Live && a.Header == null
      modifies this`Live, a`UsedUnits
      ensures Valid() && a.UsedUnits == 0 && Live == old(Live) - {a}
    {
      hide *;
      ValidParts();
      ghost var live := Live;
      HeaderIn(Live, Windows, a);
      a.UsedUnits := 0;
      Live := Live - {a};
      OthersGood(Windows, live, a, 0);
      HeadersLess(live, a, 0, Windows);
      ValidWhole();
    }

    lemma InOneList(w: WindowHeader)
      requires Valid() && w in Windows
      ensures w in PreferredWindows <==> w.FullListIndex == NOT_IN_FULL_LIST
      ensures w !in PreferredWindows ==> 0 <= w.FullListIndex < |FullWindows| && FullWindows[w.FullListIndex] == w
    {
      hide GoodIn, HeadersOk, Apart;
      ApartHere(PreferredWindows, FullWindows);
    }

    // Moves a window from the full ones to those to search, from the front.
    method Promote(window: WindowHeader)
      requires Valid() && window in Windows && window.FullListIndex != NOT_IN_FULL_LIST
      modifies this`PreferredWindows, this`FullWindows, window`ResumeScanOffset, Windows`FullListIndex
      ensures Valid() && PreferredWindows == old(PreferredWindows) + [window] && window.ResumeScanOffset == 0
    {
      hide *;
      RestartScan(window);
      ValidParts();
      SwapOut(window);
      ValidWhole();
    }

    // The last full window takes its place.
    method SwapOut(window: WindowHeader)
      requires Listed() && window in Windows && window.FullListIndex != NOT_IN_FULL_LIST
      modifies this`PreferredWindows, this`FullWindows, Windows`FullListIndex
      ensures Listed() && PreferredWindows == old(PreferredWindows) + [window]
    {
      hide Apart;
      ApartHere(PreferredWindows, FullWindows);
      var fullCount, fullIndex := |FullWindows|, window.FullListIndex;
      ApartSwapped(PreferredWindows, FullWindows, fullIndex);
      ghost var before := FullWindows;
      if fullIndex < fullCount - 1 {
        var replacement := FullWindows[fullCount - 1];
        FullWindows := FullWindows[fullIndex := replacement];
        replacement.FullListIndex := fullIndex;
      }
      FullWindows := FullWindows[..fullCount - 1];
      window.FullListIndex := NOT_IN_FULL_LIST;
      PreferredWindows := PreferredWindows + [window];
      assert FullWindows == before[fullIndex := before[fullCount - 1]][..fullCount - 1];
    }

    method RestartScan(window: WindowHeader)
      requires Valid() && window in Windows
      modifies window`ResumeScanOffset
      ensures Valid() && window.ResumeScanOffset == 0
    {
      hide HeadersOk, Apart, Mapped, Owned;
      window.ResumeScanOffset := 0;
    }

    // Gives back what the allocation does not need for that many bytes; one of
    // its own keeps what it has. Nothing it keeps is touched.
    method Shrink(a: Allocation?, bytes: nat)
      requires Valid() && (a != null ==> a in Live || a.UsedUnits == 0)
      modifies this`Live, (if a == null then {} else {a})`UsedUnits
      modifies Windows`Used, Windows`FreeUnitCount, Windows`ResumeScanOffset, Windows`Owner
      ensures Valid()
      ensures Live == if a != null && a in old(Live) && a.Header != null && UnitsFor(bytes) < old(Live)[a]
                      then old(Live)[a := UnitsFor(bytes)] else old(Live)
    {
      hide *;
      if a == null {
        return;
      }
      ValidParts();
      FreedNotLive(Live, a, Windows);
      if a.UsedUnits == 0 {
        return;
      }
      HeaderIn(Live, Windows, a);
      UnitsPositive(bytes);
      var unitsNeeded, unitsCurrent := UnitsFor(bytes), a.UsedUnits;
      if unitsNeeded < unitsCurrent {
        var windowHeader := a.Header;
        if windowHeader == null {
          return;
        }
        GiveBack(a, windowHeader, unitsNeeded);
      }
    }

    // An allocation with room for that many bytes in place of a: the same if it is
    // large enough, else a new one, to which what a holds is copied if asked for.
    // No other allocation is touched.
    method Reallocate(a: Allocation?, bytes: nat, copyExisting: bool) returns (r: Allocation?)
      requires Valid() && (a != null ==> a in Live)
      modifies this`PreferredWindows, this`FullWindows, this`Windows, this`Live, (if a == null then {} else {a})`UsedUnits
      modifies Windows`Used, Windows`FreeUnitCount, Windows`ResumeScanOffset, Windows`FullListIndex, Windows`Owner, Windows`Memory
      ensures Valid() && (r == null <==> bytes == 0)
      ensures bytes == 0 ==> Contents(Live) == old(Contents(Live)) - {a}
      ensures bytes > 0 ==> r in Live && Live[r] >= UnitsFor(bytes)
      ensures bytes > 0 && a != null ==> a in old(Live) && (r == a <==> UnitsFor(bytes) <= old(Live)[a])
      ensures bytes > 0 && r == a ==> Live == old(Live) && Contents(Live) == old(Contents(Live))
      ensures bytes > 0 && r != a ==> fresh(r) && Contents(Live) - {r} == old(Contents(Live)) - {a}
      ensures bytes > 0 && a != null && r != a && copyExisting ==>
                r in Contents(Live) && a in old(Contents(Live)) && old(Contents(Live))[a] <= Contents(Live)[r]
    {
      hide *;
      LessNull(Contents(Live));
      if a == null {
        r := AllocateMore(bytes);
        AtLeast(Live, r, bytes);
        return;
      }
      if bytes <= 0 {
        Release(a);
        return null;
      }
      ValidParts();
      HeaderIn(Live, Windows, a);
      if UnitsFor(bytes) <= a.UsedUnits {
        return a;
      }
      r := MoveTo(a, bytes, copyExisting);
    }

    method MoveTo(a: Allocation, bytes: nat, copyExisting: bool) returns (r: Allocation)
      requires Valid() && a in Live && bytes > 0 && UnitsFor(bytes) > Live[a]
      modifies this`PreferredWindows, this`FullWindows, this`Windows, this`Live, a`UsedUnits
      modifies Windows`Used, Windows`FreeUnitCount, Windows`ResumeScanOffset, Windows`FullListIndex, Windows`Owner, Windows`Memory
      ensures Valid() && fresh(r) && Live == old(Live)[r := UnitsFor(bytes)] - {a}
      ensures Contents(Live) - {r} == old(Contents(Live)) - {a}
      ensures copyExisting ==> r in Contents(Live) && a in old(Contents(Live)) && old(Contents(Live))[a] <= Contents(Live)[r]
    {
      hide *;
      ghost var live, before := Live, Contents(Live);
      r := AllocateMore(bytes);
      if copyExisting {
        CopyInto(r, a);
      }
      ghost var copied := Contents(Live);
      Release(a);
      Moved(before, copied, Contents(Live), r, a);
    }

    // Both of these leave alone what allocations hold.
    method AllocateMore(bytes: nat) returns (r: Allocation?)
      requires Valid()
      modifies this`PreferredWindows, this`FullWindows, this`Windows, this`Live
      modifies Windows`Used, Windows`FreeUnitCount, Windows`ResumeScanOffset, Windows`FullListIndex, Windows`Owner
      ensures Valid() && (r == null <==> bytes == 0) && Contents(Live) - {r} == old(Contents(Live))
      ensures r != null ==> fresh(r) && r !in old(Live) && Live == old(Live)[r := UnitsFor(bytes)] && (r.Header == null || r.Header in Windows)
      ensures r == null ==> Live == old(Live)
      ensures old(Windows) <= Windows && fresh(Windows - old(Windows))
    {
      hide *;
      ghost var live := Live;
      ghost var place;
      r, place := Allocate(bytes);
      SameHeld(live);
      LessNull(Contents(Live));
      if r != null {
        ContentsMore(live, r, UnitsFor(bytes));
        ValidParts();
        HeaderIn(Live, Windows, r);
      }
    }

    method Release(a: Allocation)
      requires Valid() && a in Live
      modifies this`PreferredWindows, this`FullWindows, this`Live, a`UsedUnits
      modifies Windows`Used, Windows`FreeUnitCount, Windows`ResumeScanOffset, Windows`FullListIndex, Windows`Owner
      ensures Valid() && Live == old(Live) - {a} && Contents(Live) == old(Contents(Live)) - {a}
    {
      hide *;
      ghost var live := Live;
      Free(a);
      SameHeld(live);
      ContentsLess(live, a);
    }

    // Copies what an allocation holds to one that is at least as large.
    method CopyInto(r: Allocation, a: Allocation)
      requires Valid() && a in Live && r in Live && r != a && Live[a] <= Live[r]
      modifies r`Fallback, (if r.Header == null then {} else {r.Header})`Memory
      ensures Valid() && Contents(Live) - {r} == old(Contents(Live)) - {r}
      ensures r in Contents(Live) && a in old(Contents(Live)) && old(Contents(Live))[a] <= Contents(Live)[r]
    {
      hide *;
      ValidParts();
      HeaderIn(Live, Windows, a);
      HeaderIn(Live, Windows, r);
      HeldLength(Live, Windows, a);
      HeldLength(Live, Windows, r);
      ContentsAt(Live, a);
      ghost var live, held := Live, Held(a, Live[a]);
      HeldIs(a, Live[a]);
      var units := a.UsedUnits;
      var data: seq<int>;
      if a.Header == null {
        data := a.Fallback;
      } else {
        data := a.Header.Memory[a.UnitStart + 1..a.UnitStart + units];
      }
      ghost var before := Contents(live);
      if r.Header == null {
        WriteFallback(r, data);
      } else {
        WriteWindow(r, r.Header, data);
      }
      ContentsAt(live, r);
    }

    method WriteFallback(r: Allocation, data: seq<int>)
      requires Valid() && r in Live && r.Header == null && |data| < Live[r]
      modifies r`Fallback
      ensures Valid() && Contents(Live) - {r} == old(Contents(Live)) - {r} && data <= Held(r, Live[r])
    {
      hide *;
      ValidParts();
      HeaderIn(Live, Windows, r);
      HeldLength(Live, Windows, r);
      ghost var before := Contents(Live);
      ContentsAll(Live);
      HeldIs(r, Live[r]);
      r.Fallback := data + r.Fallback[|data|..];
      HeldIs(r, Live[r]);
      ContentsAll(Live);
      SameElsewhere(before, Contents(Live), r);
      HeadersBack(Live, Windows, r);
      ValidWhole();
    }

    method WriteWindow(r: Allocation, window: WindowHeader, data: seq<int>)
      requires Valid() && r in Live && r.Header == window && |data| < Live[r]
      modifies window`Memory
      ensures Valid() && Contents(Live) - {r} == old(Contents(Live)) - {r} && data <= Held(r, Live[r])
    {
      hide *;
      ValidParts();
      HeaderIn(Live, Windows, r);
      HeldLength(Live, Windows, r);
      GoodInParts(window, Live);
      ghost var before, memory, live := Contents(Live), window.Memory, Live;
      ContentsAll(Live);
      HeldAll(Live, window);
      var s := r.UnitStart + 1;
      window.Memory := window.Memory[..s] + data + window.Memory[s + |data|..];
      GoodInWhole(window, Live);
      HeldAll(Live, window);
      OthersApart(window, window.Owner, Live, r, memory, data);
      assert data <= Held(r, Live[r]) by {
        HeldIs(r, Live[r]);
        WrittenPart(memory, s, data, r.UnitStart + Live[r]);
      }
      ContentsAll(Live);
      SameElsewhere(before, Contents(Live), r);
      ValidWhole();
    }
  }

  // Writing into one allocation's units changes no other's.
  lemma OthersApart(w: WindowHeader, owner: seq<Allocation?>, live: map<Allocation, nat>, r: Allocation, memory: seq<int>, data: seq<int>)
    requires Owned(w, owner, live) && r in live && r.Header == w && |data| < live[r] && |memory| == |owner| && r.UnitStart + live[r] <= |owner|
    ensures var s := r.UnitStart + 1;
            forall b :: b in live && b != r && b.Header == w ==>
              SliceOf(memory[..s] + data + memory[s + |data|..], b.UnitStart, live[b]) == SliceOf(memory, b.UnitStart, live[b])
  {
    hide Owned;
    var s := r.UnitStart + 1;
    forall b | b in live && b != r && b.Header == w
      ensures SliceOf(memory[..s] + data + memory[s + |data|..], b.UnitStart, live[b]) == SliceOf(memory, b.UnitStart, live[b])
    {
      Disjoint(w, owner, live, r, b);
      SliceSame(memory, s, data, b.UnitStart, live[b], r.UnitStart, live[r]);
    }
  }

  ghost function SliceOf(memory: seq<int>, start: nat, n: nat): seq<int> {
    if n >= 1 && start + n <= |memory| then memory[start + 1..start + n] else []
  }

  lemma SliceSame(memory: seq<int>, s: nat, data: seq<int>, start: nat, n: nat, rStart: nat, rn: nat)
    requires s == rStart + 1 && |data| < rn && rStart + rn <= |memory|
    requires n == 0 || start + n <= rStart || rStart + rn <= start
    ensures SliceOf(memory[..s] + data + memory[s + |data|..], start, n) == SliceOf(memory, start, n)
  {
    var after := memory[..s] + data + memory[s + |data|..];
    assert |after| == |memory|;
    assert forall i :: start < i < start + n && i < |memory| ==> after[i] == memory[i];
  }

  lemma WrittenPart(memory: seq<int>, s: nat, data: seq<int>, end: nat)
    requires s + |data| <= end <= |memory|
    ensures var after := memory[..s] + data + memory[s + |data|..]; end <= |after| && data <= after[s..end]
  {}

  lemma HoldsAt(owner: seq<Allocation?>, a: Allocation, n: nat, i: nat)
    requires Holds(owner, a, n) && i < |owner|
    ensures owner[i] == a <==> a.UnitStart <= i < a.UnitStart + n
  {}

  // What an allocation of n units holds behind its header.
  ghost function Held(a: Allocation, n: nat): (d: seq<int>)
    reads a`Fallback, (if a.Header == null then {} else {a.Header})`Memory
  {
    if a.Header == null then a.Fallback else SliceOf(a.Header.Memory, a.UnitStart, n)
  }

  // What all live allocations hold.
  ghost function Contents(live: map<Allocation, nat>): (m: map<Allocation, seq<int>>)
    reads live.Keys`Fallback, (set a | a in live && a.Header != null :: a.Header)`Memory
    ensures m.Keys == live.Keys && forall a :: a in live ==> m[a] == Held(a, live[a])
  {
    map a | a in live :: Held(a, live[a])
  }

  lemma HeldIs(a: Allocation, n: nat)
    ensures a.Header == null ==> Held(a, n) == a.Fallback
    ensures a.Header != null && n >= 1 && a.UnitStart + n <= |a.Header.Memory| ==> Held(a, n) == a.Header.Memory[a.UnitStart + 1..a.UnitStart + n]
  {}

  lemma HeldAll(live: map<Allocation, nat>, w: WindowHeader)
    ensures forall b :: b in live && b.Header == w ==> Held(b, live[b]) == SliceOf(w.Memory, b.UnitStart, live[b])
  {
    hide SliceOf;
  }

  lemma HeldLength(live: map<Allocation, nat>, windows: set<WindowHeader>, a: Allocation)
    requires HeadersOk(live, windows) && a in live && (a.Header != null ==> GoodIn(a.Header, live))
    ensures |Held(a, live[a])| == live[a] - 1
    ensures a.Header != null ==> a.UnitStart + live[a] <= |a.Header.Memory| == WINDOW_MAX_UNITS
    ensures a.Header == null ==> |a.Fallback| == live[a] - 1
  {
    hide Mapped;
    assert a.Header != null ==> Holds(a.Header.Owner, a, live[a]) && |a.Header.Owner| == WINDOW_MAX_UNITS by {
      if a.Header != null {
        GoodInParts(a.Header, live);
      }
    }
  }

  // Allocations hold what they held if no memory was written.
  twostate lemma SameHeld(live: map<Allocation, nat>)
    requires forall b :: b in live ==> allocated(b) && old(allocated(b))
    requires forall b :: b in live ==> b.Fallback == old(b.Fallback) && (b.Header != null ==> b.Header.Memory == old(b.Header.Memory))
    ensures Contents(live) == old(Contents(live))
  {}

  lemma ContentsMore(live: map<Allocation, nat>, a: Allocation, n: nat)
    requires a !in live
    ensures Contents(live[a := n]) - {a} == Contents(live)
  {
    hide Held;
  }

  lemma ContentsLess(live: map<Allocation, nat>, a: Allocation)
    ensures Contents(live - {a}) == Contents(live) - {a}
  {
    hide Held;
  }

  lemma Moved(before: map<Allocation, seq<int>>, copied: map<Allocation, seq<int>>, after: map<Allocation, seq<int>>, r: Allocation, a: Allocation)
    requires copied - {r} == before && after == copied - {a}
    ensures after - {r} == before - {a}
  {}

  lemma ContentsAt(live: map<Allocation, nat>, a: Allocation)
    requires a in live
    ensures a in Contents(live) && Contents(live)[a] == Held(a, live[a])
  {}

  lemma ContentsAll(live: map<Allocation, nat>)
    ensures Contents(live).Keys == live.Keys && forall a :: a in live ==> Contents(live)[a] == Held(a, live[a])
  {}

  lemma SameElsewhere(before: map<Allocation, seq<int>>, after: map<Allocation, seq<int>>, r: Allocation)
    requires after.Keys == before.Keys && forall a :: a in before && a != r ==> after[a] == before[a]
    ensures after - {r} == before - {r}
  {}

  lemma HeadersBack(live: map<Allocation, nat>, windows: set<WindowHeader>, r: Allocation)
    requires r in live && r.UsedUnits == live[r] >= 1 && r.Header == null && |r.Fallback| == live[r] - 1
    requires forall b :: b in live && b != r ==> HeaderOk(b, live[b], windows)
    ensures HeadersOk(live, windows)
  {}

  lemma AtLeast(live: map<Allocation, nat>, r: Allocation?, bytes: nat)
    requires r == null || live == live[r := UnitsFor(bytes)]
    ensures r != null ==> r in live && live[r] == UnitsFor(bytes)
  {}

  lemma LessNull(m: map<Allocation, seq<int>>)
    ensures m - {null} == m
  {}

  lemma ApartSwapped(s: seq<WindowHeader>, t: seq<WindowHeader>, i: nat)
    requires Apart(s, t) && i < |t|
    ensures var n := |t| - 1;
            var less := t[i := t[n]][..n];
            && Apart(s + [t[i]], less)
            && (set w | w in s) + (set w | w in t) == (set w | w in s + [t[i]]) + (set w | w in less)
            && forall j :: 0 <= j < n ==> less[j] != t[i]
  {
    var n := |t| - 1;
    var less := t[i := t[n]][..n];
    forall w | w in t ensures w == t[i] || w in less {
      var j :| 0 <= j < |t| && t[j] == w;
      if j < n && j != i {
        assert less[j] == w;
      } else if j == n && i < n {
        assert less[i] == w;
      }
    }
    forall w | w in less ensures w in t && w != t[i] && w !in s + [t[i]] {
      var j :| 0 <= j < n && less[j] == w;
    }
    assert t[i] in t;
  }

  // A live allocation's header.
  lemma HeaderIn(live: map<Allocation, nat>, windows: set<WindowHeader>, a: Allocation)
    requires HeadersOk(live, windows) && a in live
    ensures a.UsedUnits == live[a] >= 1 && (a.Header != null ==> a.Header in windows && live[a] <= FALLBACK_THRESHOLD_UNITS)
    ensures forall b :: b in live && b != a ==> HeaderOk(b, live[b], windows)
  {}

  lemma FreedNotLive(live: map<Allocation, nat>, a: Allocation, windows: set<WindowHeader>)
    requires HeadersOk(live, windows)
    ensures a.UsedUnits == 0 ==> a !in live
  {}

  lemma OwnRange(owner: seq<Allocation?>, s: nat, n: nat)
    requires s + n <= |owner| && |owner| == WINDOW_MAX_UNITS && n >= 1
    ensures s + n <= VALID_BITS && s < VALID_BITS
  {}

  lemma HeadersLess(live: map<Allocation, nat>, a: Allocation, n: nat, windows: set<WindowHeader>)
    requires a in live && a.UsedUnits == n < live[a] && (a.Header == null ==> n == 0) && (a.Header != null ==> a.Header in windows)
    requires live[a] <= FALLBACK_THRESHOLD_UNITS || a.Header == null
    requires forall b :: b in live && b != a ==> HeaderOk(b, live[b], windows)
    ensures n > 0 ==> HeadersOk(live[a := n], windows)
    ensures n == 0 ==> HeadersOk(live - {a}, windows)
  {}

  // The first place with room, from the offset on.
  ghost predicate FirstRoom(used: seq<Word>, from: nat, at: nat, n: nat) {
    IsBitSet(used) && from <= at && Clear(used, at, n) && NoRoom(used, from, at, n)
  }

  lemma FirstRoomParts(used: seq<Word>, from: nat, at: nat, n: nat)
    requires FirstRoom(used, from, at, n)
    ensures IsBitSet(used) && Clear(used, at, n)
  {
    hide Clear, NoRoom;
  }

  ghost predicate NoRoomAtAll(used: seq<Word>, from: nat, n: nat) {
    IsBitSet(used) && NoRoom(used, from, VALID_BITS, n)
  }

  lemma RoomFound(used: seq<Word>, from: nat, at: nat, n: nat, found: bool)
    requires IsBitSet(used) && (found ==> from <= at && Clear(used, at, n) && NoRoom(used, from, at, n))
    requires !found ==> NoRoom(used, from, VALID_BITS, n)
    ensures if found then FirstRoom(used, from, at, n) else NoRoomAtAll(used, from, n)
  {
    hide Clear, NoRoom;
  }

  // Fewer free units than needed leave no room anywhere.
  lemma TooFew(used: seq<Word>, free: nat, owner: seq<Allocation?>, from: nat, n: nat)
    requires Mapped(used, free, owner) && free < n
    ensures NoRoomAtAll(used, from, n)
  {
    hide Clear, Mapped;
    MappedSet(used, free, owner);
    forall s | from <= s < VALID_BITS ensures !Clear(used, s, n) {
      ClearFits(used, free, owner, s, n);
    }
  }

  lemma MappedSet(used: seq<Word>, free: nat, owner: seq<Allocation?>)
    requires Mapped(used, free, owner)
    ensures IsBitSet(used)
  {
    hide Bits, Ones;
  }

  lemma ClearFits(used: seq<Word>, free: nat, owner: seq<Allocation?>, s: nat, n: nat)
    requires Mapped(used, free, owner)
    ensures Clear(used, s, n) ==> n <= free
  {
    hide Bits, Ones;
    if Clear(used, s, n) {
      OnesOfFilled(Bits(used), s, s + n, true);
      OnesBound(Filled(Bits(used), s, s + n, true));
    }
  }

  lemma SmallEnough(n: nat)
    requires n <= FALLBACK_THRESHOLD_UNITS
    ensures n <= WINDOW_MAX_UNITS
  {}

  const PREALLOCATED_WINDOWS: nat := 2

  lemma UnitsPositive(bytes: nat)
    ensures UnitsFor(bytes) >= 1 && (bytes > 0 ==> UnitsFor(bytes) >= 2)
  {}

  lemma HeadersElsewhere(live: map<Allocation, nat>, windows: set<WindowHeader>, w: WindowHeader)
    requires HeadersOk(live, windows) && w !in windows
    ensures forall a :: a in live ==> a.Header != w
    ensures HeadersOk(live, windows + {w})
  {}

  lemma NewGood(w: WindowHeader, live: map<Allocation, nat>)
    requires forall units: map<Allocation, nat> :: (forall a :: a in units ==> a.Header != w) ==>
               Good(w, w.Used, w.FreeUnitCount, w.ResumeScanOffset, w.Owner, w.Memory, units)
    requires forall a :: a in live ==> a.Header != w
    ensures GoodIn(w, live)
  {
    hide Good;
  }

  lemma ApartNew(s: seq<WindowHeader>, t: seq<WindowHeader>, w: WindowHeader)
    requires Apart(s, t) && w !in s && w !in t
    ensures Apart(s + [w], t)
  {}

  lemma NothingSet(used: seq<Word>)
    requires used == seq(WORDS, _ => NONE)
    ensures IsBitSet(used) && forall n :: 0 <= n <= WINDOW_MAX_UNITS ==> Clear(used, 0, n)
  {
    forall i | 0 <= i < VALID_BITS ensures !Bits(used)[i] {
      Split(i);
    }
  }

  ghost function Backwards(s: seq<WindowHeader>): (t: seq<WindowHeader>) {
    if s == [] then [] else Backwards(s[1..]) + [s[0]]
  }

  lemma BackwardsNone(s: seq<WindowHeader>)
    ensures Backwards(s[|s|..]) == []
  {}

  lemma BackwardsNext(s: seq<WindowHeader>, i: nat)
    requires 0 < i <= |s|
    ensures Backwards(s[i - 1..]) == Backwards(s[i..]) + [s[i - 1]]
  {
    assert s[i - 1..][1..] == s[i..];
  }

  lemma ApartHere(s: seq<WindowHeader>, t: seq<WindowHeader>)
    requires Apart(s, t)
    ensures forall w :: w in s ==> w !in t
    ensures forall i, j :: 0 <= i < |s| && 0 <= j < |s| && i != j ==> s[i] != s[j]
    ensures forall i, j :: 0 <= i < |t| && 0 <= j < |t| && i != j ==> t[i] != t[j]
  {}

  lemma HeadersMore(live: map<Allocation, nat>, a: Allocation, n: nat, windows: set<WindowHeader>)
    requires HeadersOk(live, windows) && a.UsedUnits == n >= 1
    requires a.Header != null ==> a.Header in windows && n <= FALLBACK_THRESHOLD_UNITS
    requires a.Header == null ==> |a.Fallback| == n - 1
    ensures HeadersOk(live[a := n], windows)
  {}

  // ---- windows filled exactly, allocations of no size ----

  const QUARTER: nat := WINDOW_MAX_UNITS / 4

  // No allocation of the window has a unit of the range.
  ghost predicate Unused(live: map<Allocation, nat>, w: WindowHeader, s: nat, n: nat) {
    forall a :: a in live && a.Header == w ==> a.UnitStart + live[a] <= s || s + n <= a.UnitStart
  }

  lemma UnusedClear(allocator: Allocator, w: WindowHeader, s: nat, n: nat)
    requires allocator.Valid() && w in allocator.Windows && s + n <= WINDOW_MAX_UNITS && Unused(allocator.Live, w, s, n)
    ensures IsBitSet(w.Used) && Clear(w.Used, s, n)
  {
    hide Bits, Allocator.Valid, Ones;
    allocator.UsedIsUnion(w, 0);
    forall i | s <= i < s + n ensures !Bits(w.Used)[i] {
      allocator.UsedIsUnion(w, i);
      if Bits(w.Used)[i] {
        var a :| a in allocator.Live && a.Header == w && a.UnitStart <= i < a.UnitStart + a.UsedUnits;
        LiveUnits(allocator, a);
      }
    }
  }

  lemma LiveUnits(allocator: Allocator, a: Allocation)
    requires allocator.Valid() && a in allocator.Live
    ensures a.UsedUnits == allocator.Live[a]
  {
    hide Allocator.Listed, GoodIn;
  }

  lemma RoomAtOnce(used: seq<Word>, s: nat, at: nat, n: nat)
    requires IsBitSet(used) && Clear(used, s, n) && 0 < n
    ensures !NoRoomAtAll(used, s, n)
    ensures FirstRoom(used, s, at, n) ==> at == s
  {
    hide Bits, NoneIs;
    assert s < VALID_BITS;
  }

  // The window is the last to search, and its k-th quarter the next place to look at.
  ghost predicate AtQuarter(allocator: Allocator, w: WindowHeader, k: nat)
    reads allocator, w
  {
    && k < 4 && allocator.PreferredWindows != [] && w == allocator.PreferredWindows[|allocator.PreferredWindows| - 1]
    && w.ResumeScanOffset == k * QUARTER && Unused(allocator.Live, w, k * QUARTER, QUARTER)
  }

  lemma QuarterParts(allocator: Allocator, w: WindowHeader, k: nat)
    requires allocator.Valid() && AtQuarter(allocator, w, k)
    ensures w in allocator.Windows && k * QUARTER + QUARTER <= WINDOW_MAX_UNITS && Unused(allocator.Live, w, k * QUARTER, QUARTER)
    ensures allocator.PreferredWindows != [] && w == allocator.PreferredWindows[|allocator.PreferredWindows| - 1]
    ensures w.ResumeScanOffset == k * QUARTER && k < 4
  {
    hide GoodIn, HeadersOk, Apart;
  }

  lemma Quarters()
    ensures UnitsFor(8176) == QUARTER == FALLBACK_THRESHOLD_UNITS && QUARTER > 0
    ensures forall k: nat :: k < 4 ==> (k * QUARTER + QUARTER * 2 <= WINDOW_MAX_UNITS <==> k < 3)
    ensures 3 * QUARTER == PREFERRED_THRESHOLD_UNITS && 4 * QUARTER == WINDOW_MAX_UNITS
  {}

  // Takes the k-th quarter.
  method TakeQuarter(allocator: Allocator, w: WindowHeader, k: nat) returns (a: Allocation)
    requires allocator.Valid() && AtQuarter(allocator, w, k)
    modifies allocator`PreferredWindows, allocator`FullWindows, allocator`Windows, allocator`Live
    modifies allocator.Windows`Used, allocator.Windows`FreeUnitCount, allocator.Windows`ResumeScanOffset, allocator.Windows`FullListIndex, allocator.Windows`Owner
    ensures allocator.Valid() && fresh(a) && a.Header == w && a.UnitStart == k * QUARTER && allocator.Live == old(allocator.Live)[a := QUARTER]
    ensures w.FreeUnitCount + QUARTER == old(w.FreeUnitCount) && w.ResumeScanOffset == (k + 1) * QUARTER
    ensures old(allocator.Windows) <= allocator.Windows && fresh(allocator.Windows - old(allocator.Windows))
    ensures var n := |old(allocator.PreferredWindows)|;
            allocator.PreferredWindows == if k < 3 then old(allocator.PreferredWindows) else old(allocator.PreferredWindows)[..n - 1]
  {
    hide *;
    Quarters();
    QuarterParts(allocator, w, k);
    UnusedClear(allocator, w, k * QUARTER, QUARTER);
    ghost var used, preferred := w.Used, allocator.PreferredWindows;
    RoomAtOnce(used, k * QUARTER, 0, QUARTER);
    var b;
    ghost var place;
    b, place := allocator.Allocate(8176);
    a := b;
    assert place == |preferred| - 1;
    RoomAtOnce(used, k * QUARTER, a.UnitStart, QUARTER);
    NextQuarter(k);
    assert preferred[..|preferred|] == preferred;
  }

  lemma NextQuarter(k: nat)
    ensures k * QUARTER + QUARTER == (k + 1) * QUARTER
  {}

  // The allocations in use are these, quarters of the window.
  ghost predicate Quartered(live: map<Allocation, nat>, w: WindowHeader, quarters: seq<Allocation>) {
    && (forall a :: a in live ==> a in quarters)
    && forall i :: 0 <= i < |quarters| ==> quarters[i].Header == w && quarters[i] in live && live[quarters[i]] == QUARTER
  }

  // They start at the quarters from the m-th on.
  ghost predicate Starting(quarters: seq<Allocation>, m: nat) {
    forall i :: 0 <= i < |quarters| ==> quarters[i].UnitStart == (m + i) * QUARTER
  }

  lemma QuartersUnused(live: map<Allocation, nat>, w: WindowHeader, taken: seq<Allocation>, rest: seq<Allocation>, k: nat)
    requires Quartered(live, w, taken + rest) && Starting(taken, 0) && Starting(rest, 3) && |taken| <= k < 3 + (if rest == [] then 1 else 0)
    ensures Unused(live, w, k * QUARTER, QUARTER)
  {
    hide Starting;
    forall a | a in live && a.Header == w ensures a.UnitStart + live[a] <= k * QUARTER || k * QUARTER + QUARTER <= a.UnitStart {
      QuarterOf(taken, rest, k, a);
    }
  }

  lemma QuarterOf(taken: seq<Allocation>, rest: seq<Allocation>, k: nat, a: Allocation)
    requires Starting(taken, 0) && Starting(rest, 3) && |taken| <= k < 3 + (if rest == [] then 1 else 0) && a in taken + rest
    ensures a.UnitStart + QUARTER <= k * QUARTER || k * QUARTER + QUARTER <= a.UnitStart
  {
    hide *;
    if a in taken {
      var i :| 0 <= i < |taken| && taken[i] == a;
      StartAt(taken, 0, i);
      QuarterSteps(i, k);
    } else {
      var i :| 0 <= i < |rest| && rest[i] == a;
      StartAt(rest, 3, i);
      QuarterSteps(k, 3 + i);
    }
  }

  lemma StartAt(quarters: seq<Allocation>, m: nat, i: nat)
    requires Starting(quarters, m) && i < |quarters|
    ensures quarters[i].UnitStart == (m + i) * QUARTER
  {}

  lemma QuarterSteps(i: nat, k: nat)
    requires i < k
    ensures i * QUARTER + QUARTER <= k * QUARTER
  {}

  lemma QuarterTaken(live: map<Allocation, nat>, w: WindowHeader, taken: seq<Allocation>, rest: seq<Allocation>, a: Allocation)
    requires Quartered(live, w, taken + rest) && Starting(taken, 0) && a.Header == w && a.UnitStart == |taken| * QUARTER
    ensures Quartered(live[a := QUARTER], w, taken + [a] + rest) && Starting(taken + [a], 0)
  {
    var before, after := taken + rest, taken + [a] + rest;
    assert forall b :: b in after <==> b in before || b == a;
    forall i | 0 <= i < |after| ensures after[i].Header == w && after[i] in live[a := QUARTER] && live[a := QUARTER][after[i]] == QUARTER {
      assert after[i] == a || after[i] in before;
    }
  }

  lemma QuarterFreed(live: map<Allocation, nat>, w: WindowHeader, quarters: seq<Allocation>, m: nat)
    requires Quartered(live, w, quarters) && Starting(quarters, m) && quarters != []
    ensures Quartered(live - {quarters[0]}, w, quarters[1..]) && Starting(quarters[1..], m + 1)
  {
    var rest := quarters[1..];
    assert forall i :: 0 <= i < |rest| ==> rest[i] == quarters[i + 1];
    forall i | 0 <= i < |rest| ensures rest[i] != quarters[0] {
      FurtherQuarter(m, i + 1);
    }
    forall a | a in live - {quarters[0]} ensures a in rest {
      assert a in quarters && quarters == [quarters[0]] + rest;
    }
  }

  lemma FurtherQuarter(m: nat, i: nat)
    ensures i > 0 ==> (m + i) * QUARTER != (m + 0) * QUARTER
  {}

  lemma QuarterFold(allocator: Allocator, w: WindowHeader, k: nat)
    requires k < 4 && allocator.PreferredWindows != [] && w == allocator.PreferredWindows[|allocator.PreferredWindows| - 1]
    requires w.ResumeScanOffset == k * QUARTER && Unused(allocator.Live, w, k * QUARTER, QUARTER)
    ensures AtQuarter(allocator, w, k)
  {}

  // Takes the quarters before the n-th, one by one.
  method TakeQuarters(allocator: Allocator, w: WindowHeader, n: nat, ghost rest: seq<Allocation>) returns (taken: seq<Allocation>)
    requires allocator.Valid() && n <= 3 && allocator.PreferredWindows != [] && w == allocator.PreferredWindows[|allocator.PreferredWindows| - 1]
    requires Quartered(allocator.Live, w, rest) && Starting(rest, 3) && w.ResumeScanOffset == 0
    modifies allocator`PreferredWindows, allocator`FullWindows, allocator`Windows, allocator`Live
    modifies allocator.Windows`Used, allocator.Windows`FreeUnitCount, allocator.Windows`ResumeScanOffset, allocator.Windows`FullListIndex, allocator.Windows`Owner
    ensures allocator.Valid() && allocator.PreferredWindows == old(allocator.PreferredWindows) && w.ResumeScanOffset == n * QUARTER
    ensures |taken| == n && Starting(taken, 0) && Quartered(allocator.Live, w, taken + rest) && fresh(taken)
    ensures old(allocator.Windows) <= allocator.Windows && fresh(allocator.Windows - old(allocator.Windows))
    ensures w.FreeUnitCount + n * QUARTER == old(w.FreeUnitCount)
  {
    hide *;
    taken := [];
    NoQuarters();
    assert [] + rest == rest;
    for k := 0 to n
      invariant allocator.Valid() && allocator.PreferredWindows == old(allocator.PreferredWindows) && w.ResumeScanOffset == k * QUARTER
      invariant |taken| == k && Starting(taken, 0) && Quartered(allocator.Live, w, taken + rest) && fresh(taken)
      invariant old(allocator.Windows) <= allocator.Windows && fresh(allocator.Windows - old(allocator.Windows))
      invariant w.FreeUnitCount + k * QUARTER == old(w.FreeUnitCount)
    {
      QuartersUnused(allocator.Live, w, taken, rest, k);
      QuarterFold(allocator, w, k);
      ghost var live := allocator.Live;
      var a := TakeQuarter(allocator, w, k);
      QuarterTaken(live, w, taken, rest, a);
      taken := taken + [a];
      NextQuarter(k);
    }
  }

  lemma NoQuarters()
    ensures Starting([], 0) && 0 * QUARTER == 0
  {}

  // Frees the first three of four quarters: the window is searched again.
  method FreeThree(allocator: Allocator, w: WindowHeader, quarters: seq<Allocation>)
    requires allocator.Valid() && |quarters| == 4 && Quartered(allocator.Live, w, quarters) && Starting(quarters, 0)
    requires w in allocator.Windows && w !in allocator.PreferredWindows && w.FreeUnitCount == 0
    modifies allocator`PreferredWindows, allocator`FullWindows, allocator`Live, quarters`UsedUnits
    modifies allocator.Windows`Used, allocator.Windows`FreeUnitCount, allocator.Windows`ResumeScanOffset, allocator.Windows`FullListIndex, allocator.Windows`Owner
    ensures allocator.Valid() && allocator.PreferredWindows == old(allocator.PreferredWindows) + [w] && w.ResumeScanOffset == 0
    ensures Quartered(allocator.Live, w, quarters[3..]) && Starting(quarters[3..], 3) && w.FreeUnitCount == 3 * QUARTER
  {
    hide *;
    Quarters();
    ghost var preferred := allocator.PreferredWindows;
    assert quarters[0..] == quarters;
    for k := 0 to 3
      invariant allocator.Valid() && allocator.Windows == old(allocator.Windows)
      invariant Quartered(allocator.Live, w, quarters[k..]) && Starting(quarters[k..], k) && w.FreeUnitCount == k * QUARTER
      invariant if k < 3 then allocator.PreferredWindows == preferred else allocator.PreferredWindows == preferred + [w] && w.ResumeScanOffset == 0
    {
      QuarterLive(allocator.Live, w, quarters[k..]);
      ghost var live := allocator.Live;
      allocator.Free(quarters[k]);
      QuarterFreed(live, w, quarters[k..], k);
      assert quarters[k..][1..] == quarters[k + 1..];
      NextQuarter(k);
      EarlierQuarters(k);
    }
  }

  lemma QuarterLive(live: map<Allocation, nat>, w: WindowHeader, quarters: seq<Allocation>)
    requires Quartered(live, w, quarters) && quarters != []
    ensures quarters[0] in live && quarters[0].Header == w && live[quarters[0]] == QUARTER
  {}

  lemma EarlierQuarters(k: nat)
    requires k < 3
    ensures (k + 1) * QUARTER >= PREFERRED_THRESHOLD_UNITS <==> k == 2
  {}

  // From the start: all four quarters of a window are taken, the first three freed, so
  // that it is searched again, and taken once more. The window has no free unit then
  // and is still among those to search.
  method FillExactly() returns (allocator: Allocator, w: WindowHeader)
    ensures allocator.Valid() && w in allocator.PreferredWindows && w.FreeUnitCount == 0
  {
    hide *;
    Quarters();
    allocator := new Allocator();
    TwoWindows(allocator);
    w := allocator.PreferredWindows[1];
    var first := TakeQuarters(allocator, w, 3, []);
    assert first + [] == first;
    QuartersUnused(allocator.Live, w, first, [], 3);
    QuarterFold(allocator, w, 3);
    ghost var live := allocator.Live;
    var last := TakeQuarter(allocator, w, 3);
    QuarterTaken(live, w, first, [], last);
    var quarters := first + [last];
    assert first + [last] + [] == quarters;
    FreeThree(allocator, w, quarters);
    var again := TakeQuarters(allocator, w, 3, quarters[3..]);
  }

  lemma TwoWindows(allocator: Allocator)
    requires allocator.Valid() && |allocator.PreferredWindows| == PREALLOCATED_WINDOWS && allocator.Live == map[]
    ensures |allocator.PreferredWindows| == 2 && allocator.PreferredWindows[1] in allocator.Windows
    ensures allocator.PreferredWindows[1] != allocator.PreferredWindows[0]
    ensures Quartered(allocator.Live, allocator.PreferredWindows[1], []) && Starting([], 3)
  {
    hide GoodIn, HeadersOk;
  }

  // Shrinking leaves less than the two units that freeing asserts exactly if it is to
  // no bytes.
  method ShrinkTo(allocator: Allocator, a: Allocation, bytes: nat)
    requires allocator.Valid() && a in allocator.Live && a.Header != null && allocator.Live[a] >= 2
    modifies allocator`Live, a`UsedUnits
    modifies allocator.Windows`Used, allocator.Windows`FreeUnitCount, allocator.Windows`ResumeScanOffset, allocator.Windows`Owner
    ensures allocator.Valid() && a in allocator.Live && (allocator.Live[a] < 2 <==> bytes == 0)
  {
    hide *;
    UnitsPositive(bytes);
    NoBytes(bytes);
    allocator.Shrink(a, bytes);
  }

  lemma NoBytes(bytes: nat)
    ensures UnitsFor(bytes) < 2 <==> bytes == 0
  {}
}
