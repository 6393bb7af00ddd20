// Wirehair's compression stage: the deferred and mixing columns' bits of each row,
// and the peeled columns substituted in the order they were solved.
module Compression {
  import opened Collections
  import opened Gf256
  import opened Weyl
  import opened Peels
  import opened PeelAlgebra
  import opened PeelSystem
  import opened PeelSteps
  import opened PeelResult

  // What a walk along a list is at.
  ghost function At(list: seq<nat>, i: nat): nat {
    if i < |list| then list[i] else LIST_TERM
  }

  lemma WalkOn(next: seq<nat>, head: nat, list: seq<nat>, i: nat)
    requires Chain(next, head, list) && |next| <= LIST_TERM
    ensures head == At(list, 0)
    ensures (At(list, i) == LIST_TERM) == (i >= |list|)
    ensures i < |list| ==> list[i] < |next| && At(list, i) == list[i] && next[list[i]] == At(list, i + 1)
  {}

  // ---- the steps on values ----

  // The bits of the first i deferred columns, and of the next in some rows.
  ghost predicate BitsUpTo(s: System, matrix: seq<seq<bool>>, i: nat, seen: seq<nat>) {
    && |matrix| == |s.columns|
    && forall r :: 0 <= r < |matrix| ==>
         && |matrix[r]| == Width(s)
         && forall j :: 0 <= j < Width(s) ==>
              (matrix[r][j] <==> j < |s.deferredColumns| && ((j < i && s.deferredColumns[j] in s.columns[r]) || (j == i && r in seen)))
  }

  lemma BitSet(s: System, matrix: seq<seq<bool>>, i: nat, seen: seq<nat>, r: nat)
    requires BitsUpTo(s, matrix, i, seen) && i < |s.deferredColumns| && r < |matrix|
    ensures i < |matrix[r]| && BitsUpTo(s, matrix[r := matrix[r][i := true]], i, seen + [r])
  {}

  lemma BitsNext(s: System, refs: seq<seq<nat>>, matrix: seq<seq<bool>>, i: nat)
    requires References(s.columns, refs) && i < |s.deferredColumns| && s.deferredColumns[i] < |refs|
    requires BitsUpTo(s, matrix, i, refs[s.deferredColumns[i]])
    ensures BitsUpTo(s, matrix, i + 1, [])
  {
    hide Distinct, Within;
  }

  lemma BitsNone(s: System, matrix: seq<seq<bool>>)
    requires |matrix| == |s.columns| && forall r :: 0 <= r < |matrix| ==> |matrix[r]| == Width(s) && forall j :: 0 <= j < Width(s) ==> !matrix[r][j]
    ensures BitsUpTo(s, matrix, 0, [])
  {}

  lemma BitsAll(s: System, matrix: seq<seq<bool>>)
    requires BitsUpTo(s, matrix, |s.deferredColumns|, [])
    ensures MixedUpTo(s, matrix, 0)
  {
    forall r | 0 <= r < |matrix| ensures matrix[r] == DeferredBits(s, r) {
      assert forall j :: 0 <= j < Width(s) ==> matrix[r][j] == DeferredBits(s, r)[j];
    }
  }

  // The first i deferred rows have their mixing columns.
  ghost predicate MixedUpTo(s: System, matrix: seq<seq<bool>>, i: nat) {
    && |matrix| == |s.columns| && i <= |s.deferredRows|
    && forall r :: 0 <= r < |matrix| ==> |matrix[r]| == Width(s) && MixedRow(s, matrix[r], r, r in s.deferredRows[..i])
  }

  ghost predicate MixedRow(s: System, row: seq<bool>, r: nat, mixed: bool)
    requires r < |s.columns|
  {
    if mixed then r < |s.mixes| && |s.mixes[r]| == 3 && Within(s.mixes[r], s.mixCount) && row == Mixed(s, DeferredBits(s, r), s.mixes[r])
    else row == DeferredBits(s, r)
  }

  lemma MixedNext(s: System, matrix: seq<seq<bool>>, i: nat)
    requires WellFormed(s) && MixedUpTo(s, matrix, i) && i < |s.deferredRows|
    ensures var r := s.deferredRows[i];
            && r < |matrix| && r < |s.mixes| && |matrix[r]| == Width(s) && |s.mixes[r]| == 3 && Within(s.mixes[r], s.mixCount)
            && MixedUpTo(s, matrix[r := Mixed(s, matrix[r], s.mixes[r])], i + 1)
  {
    hide Mixed, DeferredBits, Ordered, Within;
    var r := s.deferredRows[i];
    assert r in s.deferredRows && r !in s.deferredRows[..i];
    assert s.deferredRows[..i + 1] == s.deferredRows[..i] + [r];
    assert MixedRow(s, matrix[r], r, false);
  }

  lemma MixedAll(s: System, d: Diagonal)
    requires WellFormed(s) && MixedUpTo(s, d.matrix, |s.deferredRows|)
    requires |d.copied| == |s.columns| && |d.blocks| == BlockCount(s) + s.mixCount && forall r :: 0 <= r < |d.copied| ==> !d.copied[r]
    ensures Started(s, d)
  {
    hide Mixed, DeferredBits, Ordered, Within, Distinct;
    assert s.deferredRows[..|s.deferredRows|] == s.deferredRows;
    forall r | 0 <= r < |s.columns| ensures MixedRow(s, d.matrix[r], r, r in s.deferredRows) {}
  }

  // One peeled row's turn, with some of the rows seen that have its column.
  ghost predicate Partly(s: System, d: Diagonal, e: Diagonal, i: nat, seen: seq<nat>)
    requires WellFormed(s) && Sized(s, d) && i < |s.peeledRows| && s.peeledRows[i] < |s.columns|
  {
    && Sized(s, e)
    && (forall r :: 0 <= r < |s.columns| ==> RowAdded(s, d, e, i, r, r in seen))
    && (forall k :: 0 <= k < |s.peeledRows| && s.peeledRows[k] < |s.columns| ==> BlockAdded(s, d, e, i, k, s.peeledRows[k] in seen))
  }

  lemma PartlyAll(s: System, d: Diagonal, e: Diagonal, i: nat, refs: seq<seq<nat>>)
    requires WellFormed(s) && Sized(s, d) && i < |s.peeledRows| && s.peeledRows[i] < |s.columns|
    requires References(s.columns, refs) && s.peeledColumns[i] < |refs| && Partly(s, d, e, i, refs[s.peeledColumns[i]])
    ensures Stepped(s, d, e, i)
  {
    hide Mixed, Value, Add, Xor, Sized, Ordered, Distinct, Within, Share;
    forall r | 0 <= r < |s.columns| ensures RowStepped(s, d, e, i, r) {
      assert RowAdded(s, d, e, i, r, r in refs[s.peeledColumns[i]]);
    }
    PeeledParts(s);
    forall k | 0 <= k < |s.peeledRows| ensures BlockStepped(s, d, e, i, k) {
      assert BlockAdded(s, d, e, i, k, s.peeledRows[k] in refs[s.peeledColumns[i]]);
    }
  }

  lemma PartlyStart(s: System, d: Diagonal, e: Diagonal, i: nat)
    requires WellFormed(s) && Sized(s, d) && i < |s.peeledRows| && s.peeledRows[i] < |s.columns| && s.peeledColumns[i] < |d.blocks|
    requires var p, c := s.peeledRows[i], s.peeledColumns[i];
             e == d.(matrix := d.matrix[p := Mixed(s, d.matrix[p], s.mixes[p])], blocks := d.blocks[c := ValueSoFar(s.input, d, p, c)])
    ensures Partly(s, d, e, i, [])
  {
    hide Mixed, Ordered, Share, Within, ValueSoFar;
    PeeledParts(s);
  }

  lemma PartlyOwn(s: System, d: Diagonal, e: Diagonal, i: nat, seen: seq<nat>)
    requires WellFormed(s) && Sized(s, d) && i < |s.peeledRows| && s.peeledRows[i] < |s.columns| && Partly(s, d, e, i, seen)
    ensures Partly(s, d, e, i, seen + [s.peeledRows[i]])
  {
    hide Mixed, Ordered, Share, Within, ValueSoFar, Value, Xor, Sized;
    PeeledParts(s);
    var more, p := seen + [s.peeledRows[i]], s.peeledRows[i];
    forall r | 0 <= r < |s.columns| ensures RowAdded(s, d, e, i, r, r in more) {
      assert RowAdded(s, d, e, i, r, r in seen);
    }
    forall k | 0 <= k < |s.peeledRows| && s.peeledRows[k] < |s.columns| ensures BlockAdded(s, d, e, i, k, s.peeledRows[k] in more) {
      assert BlockAdded(s, d, e, i, k, s.peeledRows[k] in seen);
    }
  }

  // Adding it to another row: to its bits and, if that row is peeled, to its block.
  lemma PartlyRow(s: System, d: Diagonal, e: Diagonal, f: Diagonal, i: nat, seen: seq<nat>, r: nat, k: nat)
    requires WellFormed(s) && Sized(s, d) && i < |s.peeledRows| && s.peeledRows[i] < |s.columns| && Partly(s, d, e, i, seen)
    requires r < |s.columns| && r !in seen && r != s.peeledRows[i] && k == PlaceOf(s.peeledRows, r) && s.peeledColumns[i] < |e.blocks|
    requires var p, c := s.peeledRows[i], s.peeledColumns[i];
             && f.matrix == e.matrix[r := Xor(e.matrix[r], e.matrix[p])]
             && (k == |s.peeledRows| ==> f.blocks == e.blocks && f.copied == e.copied)
             && (k < |s.peeledRows| ==>
                   && s.peeledColumns[k] < |e.blocks|
                   && f.blocks == e.blocks[s.peeledColumns[k] := Add(ValueSoFar(s.input, e, r, s.peeledColumns[k]), e.blocks[c])]
                   && f.copied == e.copied[r := true])
    ensures Partly(s, d, f, i, seen + [r])
  {
    hide Mixed, Ordered, Share, Within, ValueSoFar, Xor, Distinct;
    var more := seen + [r];
    forall q | 0 <= q < |s.columns| ensures RowAdded(s, d, f, i, q, q in more) {
      assert RowAdded(s, d, e, i, q, q in seen) && RowAdded(s, d, e, i, s.peeledRows[i], s.peeledRows[i] in seen);
    }
    forall j | 0 <= j < |s.peeledRows| && s.peeledRows[j] < |s.columns| ensures BlockAdded(s, d, f, i, j, s.peeledRows[j] in more) {
      BlockNext(s, d, e, f, i, seen, r, k, j);
    }
  }

  lemma BlockNext(s: System, d: Diagonal, e: Diagonal, f: Diagonal, i: nat, seen: seq<nat>, r: nat, k: nat, j: nat)
    requires WellFormed(s) && Sized(s, d) && i < |s.peeledRows| && s.peeledRows[i] < |s.columns| && Partly(s, d, e, i, seen) && Sized(s, f)
    requires r < |s.columns| && r !in seen && r != s.peeledRows[i] && k == PlaceOf(s.peeledRows, r) && s.peeledColumns[i] < |e.blocks|
    requires k == |s.peeledRows| ==> f.blocks == e.blocks && f.copied == e.copied
    requires k < |s.peeledRows| ==>
               && s.peeledColumns[k] < |e.blocks|
               && f.blocks == e.blocks[s.peeledColumns[k] := Add(ValueSoFar(s.input, e, r, s.peeledColumns[k]), e.blocks[s.peeledColumns[i]])]
               && f.copied == e.copied[r := true]
    requires j < |s.peeledRows| && s.peeledRows[j] < |s.columns|
    ensures BlockAdded(s, d, f, i, j, s.peeledRows[j] in seen + [r])
  {
    hide *;
    PeeledParts(s);
    PartlyBlock(s, d, e, i, seen, j);
    SizedBlocks(s, e);
    SizedBlocks(s, f);
    PlaceApart(s.peeledRows, r, j);
    PlaceApart(s.peeledRows, r, i);
    ValueIs(e.blocks, s.peeledColumns[j]);
    ValueIs(f.blocks, s.peeledColumns[j]);
    if j == k {
      PartlyBlock(s, d, e, i, seen, i);
      ValueIs(e.blocks, s.peeledColumns[i]);
      BlockNow(s, d, e, f, i, j);
    } else {
      if k < |s.peeledRows| {
        TwoPlaces(s.peeledRows, j, k);
        TwoPlaces(s.peeledColumns, j, k);
      }
      assert s.peeledRows[j] in seen + [r] <==> s.peeledRows[j] in seen;
      BlockSame(s, d, e, f, i, j, s.peeledRows[j] in seen);
    }
  }

  lemma PartlyBlock(s: System, d: Diagonal, e: Diagonal, i: nat, seen: seq<nat>, j: nat)
    requires WellFormed(s) && Sized(s, d) && i < |s.peeledRows| && s.peeledRows[i] < |s.columns| && Partly(s, d, e, i, seen)
    requires j < |s.peeledRows| && s.peeledRows[j] < |s.columns|
    ensures Sized(s, e) && |s.peeledRows| == |s.peeledColumns| && BlockAdded(s, d, e, i, j, s.peeledRows[j] in seen)
    ensures j == i ==> |s.input| == |d.copied| == |s.columns| && Value(e.blocks, s.peeledColumns[i]) == ValueSoFar(s.input, d, s.peeledRows[i], s.peeledColumns[i])
  {
    hide Ordered, Share, Distinct, Within, RowAdded, Value, ValueSoFar, Add, Mixed;
  }

  lemma BlockSame(s: System, d: Diagonal, e: Diagonal, f: Diagonal, i: nat, j: nat, added: bool)
    requires WellFormed(s) && Sized(s, d) && Sized(s, e) && Sized(s, f) && i < |s.peeledRows| && j < |s.peeledRows|
    requires s.peeledRows[i] < |s.columns| && s.peeledRows[j] < |s.columns| && BlockAdded(s, d, e, i, j, added)
    requires f.copied[s.peeledRows[j]] == e.copied[s.peeledRows[j]] && Value(f.blocks, s.peeledColumns[j]) == Value(e.blocks, s.peeledColumns[j])
    ensures BlockAdded(s, d, f, i, j, added)
  {
    hide Ordered, Share, Distinct, Within, Value, ValueSoFar, Add;
  }

  lemma BlockNow(s: System, d: Diagonal, e: Diagonal, f: Diagonal, i: nat, j: nat)
    requires WellFormed(s) && Sized(s, d) && Sized(s, e) && Sized(s, f) && i < |s.peeledRows| && j < |s.peeledRows| && i != j
    requires s.peeledRows[i] < |s.columns| && s.peeledRows[j] < |s.columns| && BlockAdded(s, d, e, i, j, false)
    requires f.copied[s.peeledRows[j]] && Value(f.blocks, s.peeledColumns[j]) ==
             Add(ValueSoFar(s.input, e, s.peeledRows[j], s.peeledColumns[j]), ValueSoFar(s.input, d, s.peeledRows[i], s.peeledColumns[i]))
    ensures BlockAdded(s, d, f, i, j, true)
  {
    hide Ordered, Share, Distinct, Within, Value, Add;
  }

  lemma TwoPlaces(s: seq<nat>, i: nat, j: nat)
    requires Distinct(s) && i < |s| && j < |s| && i != j
    ensures s[i] != s[j]
  {}

  lemma PlaceApart(list: seq<nat>, r: nat, j: nat)
    requires j < |list| && Distinct(list)
    ensures list[j] == r <==> PlaceOf(list, r) == j
  {
    if list[j] == r {
      PlaceAt(list, j);
    }
  }

  lemma SizedBlocks(s: System, e: Diagonal)
    requires Sized(s, e)
    ensures |e.copied| == |s.columns| && |e.blocks| == BlockCount(s) + s.mixCount
  {}

  lemma ValueIs(x: seq<Gf>, c: nat)
    ensures Value(x, c) == if c < |x| then x[c] else ZERO
  {}
}
