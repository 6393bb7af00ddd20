// One peeled row's turn: its mixing columns enter the matrix, its block is
// settled, and it is added to the other rows with its column.
module PeelSteps {
  import opened Collections
  import opened Gf256
  import opened Weyl
  import opened Peels
  import opened PeelAlgebra
  import opened PeelSystem

  // The matrix row r, and whether the row whose turn it is has been added to it.
  ghost predicate RowAdded(s: System, d: Diagonal, e: Diagonal, i: nat, r: nat, added: bool)
    requires WellFormed(s) && Sized(s, d) && Sized(s, e) && i < |s.peeledRows| && r < |s.columns| && s.peeledRows[i] < |s.columns|
  {
    var row := Mixed(s, d.matrix[s.peeledRows[i]], s.mixes[s.peeledRows[i]]);
    e.matrix[r] == if r == s.peeledRows[i] then row else if added then Xor(d.matrix[r], row) else d.matrix[r]
  }

  // The same for the block of the k-th peeled row.
  ghost predicate BlockAdded(s: System, d: Diagonal, e: Diagonal, i: nat, k: nat, added: bool)
    requires WellFormed(s) && Sized(s, d) && Sized(s, e) && i < |s.peeledRows| && k < |s.peeledRows|
    requires s.peeledRows[i] < |s.columns| && s.peeledRows[k] < |s.columns|
  {
    var q, c, v := s.peeledRows[k], s.peeledColumns[k], ValueSoFar(s.input, d, s.peeledRows[i], s.peeledColumns[i]);
    if k == i then e.copied[q] == d.copied[q] && Value(e.blocks, c) == v
    else if added then e.copied[q] && Value(e.blocks, c) == Add(ValueSoFar(s.input, d, q, c), v)
    else e.copied[q] == d.copied[q] && Value(e.blocks, c) == Value(d.blocks, c)
  }

  ghost predicate RowStepped(s: System, d: Diagonal, e: Diagonal, i: nat, r: nat)
    requires WellFormed(s) && Sized(s, d) && Sized(s, e) && i < |s.peeledRows| && r < |s.columns|
  {
    RowAdded(s, d, e, i, r, s.peeledColumns[i] in s.columns[r])
  }

  ghost predicate BlockStepped(s: System, d: Diagonal, e: Diagonal, i: nat, k: nat)
    requires WellFormed(s) && Sized(s, d) && Sized(s, e) && i < |s.peeledRows| && k < |s.peeledRows|
  {
    BlockAdded(s, d, e, i, k, s.peeledColumns[i] in s.columns[s.peeledRows[k]])
  }

  ghost predicate Stepped(s: System, d: Diagonal, e: Diagonal, i: nat)
    requires WellFormed(s) && Sized(s, d) && i < |s.peeledRows|
  {
    && Sized(s, e)
    && (forall r :: 0 <= r < |s.columns| ==> RowStepped(s, d, e, i, r))
    && (forall k :: 0 <= k < |s.peeledRows| ==> BlockStepped(s, d, e, i, k))
  }

  lemma PeeledParts(s: System)
    requires WellFormed(s)
    ensures Distinct(s.peeledRows) && Distinct(s.peeledColumns)
    ensures forall k :: 0 <= k < |s.peeledRows| ==> s.peeledRows[k] < |s.columns|
  {
    hide Distinct, Ordered;
  }

  // Rows that had their turn do not have a later row's column.
  lemma EarlierLacks(s: System, k: nat, i: nat)
    requires WellFormed(s) && k < i < |s.peeledRows|
    ensures s.peeledRows[k] < |s.columns| && s.peeledColumns[i] !in s.columns[s.peeledRows[k]]
  {
    var c := s.peeledColumns[i];
    assert Ordered(s, k) && c in s.peeledColumns;
    assert c != s.peeledColumns[k] && c !in s.peeledColumns[..k] && c !in s.deferredColumns;
  }

  lemma RemainingNext(s: System, r: nat, i: nat)
    requires WellFormed(s) && i < |s.peeledRows| && r != s.peeledRows[i]
    ensures var k := PlaceOf(s.peeledRows, r);
            && k != i
            && (k < i ==> Remaining(s, r, i + 1) == Remaining(s, r, i))
            && (k > i ==> s.peeledColumns[i] in Remaining(s, r, i) && Remaining(s, r, i + 1) == Remaining(s, r, i) - {s.peeledColumns[i]})
  {
    PeeledParts(s);
    var k := PlaceOf(s.peeledRows, r);
    if k > i {
      NextElement(s.peeledColumns, i);
      assert s.peeledColumns[i] in Elements(s.peeledColumns);
    }
  }

  lemma RemainingOwn(s: System, i: nat, x: seq<Gf>)
    requires WellFormed(s) && i < |s.peeledRows|
    ensures var p := s.peeledRows[i];
            && PlaceOf(s.peeledRows, p) == i && p < |s.columns| && Remaining(s, p, i + 1) == Remaining(s, p, i)
            && Part(s.columns[p], Remaining(s, p, i), x) == Value(x, s.peeledColumns[i])
  {
    hide Part, Value, Distinct;
    PeeledParts(s);
    var p, c := s.peeledRows[i], s.peeledColumns[i];
    PlaceAt(s.peeledRows, i);
    NextElement(s.peeledColumns, i);
    assert Ordered(s, i) && c in Elements(s.peeledColumns);
    forall d | d in s.columns[p] && d in Remaining(s, p, i) ensures d == c {
      assert d in s.peeledColumns && d !in Elements(s.peeledColumns[..i]);
    }
    PartOne(s.columns[p], Remaining(s, p, i), c, x);
  }

  // The residual of the row whose turn it is: its own column is all that is left.
  lemma OwnResidual(s: System, d: Diagonal, i: nat, a: Assignment)
    requires WellFormed(s) && Sized(s, d) && i < |s.peeledRows| && |a.mixing| == s.mixCount
    ensures var p, c := s.peeledRows[i], s.peeledColumns[i];
            p < |s.columns| && Residual(s, d, p, i, a) ==
            Add(Add(SumTo(Mixed(s, d.matrix[p], s.mixes[p]), Left(s, a), Width(s)), Value(a.blocks, c)), ValueSoFar(s.input, d, p, c))
  {
    hide Add, SumTo, Part, MixSum, Left, Value, Mixed, Remaining, Distinct;
    var p, c := s.peeledRows[i], s.peeledColumns[i];
    RemainingOwn(s, i, a.blocks);
    MixedSum(s, d.matrix[p], s.mixes[p], a);
    var sum, own, mix, v := SumTo(d.matrix[p], Left(s, a), Width(s)), Value(a.blocks, c), MixSum(s.mixes[p], a.mixing), ValueSoFar(s.input, d, p, c);
    AddAssoc(Add(sum, own), mix, v);
    AddAssoc(sum, own, mix);
    AddComm(own, mix);
    AddAssoc(sum, mix, own);
  }

  lemma StepOwn(s: System, d: Diagonal, e: Diagonal, i: nat, a: Assignment)
    requires WellFormed(s) && Sized(s, d) && i < |s.peeledRows| && |a.mixing| == s.mixCount && Stepped(s, d, e, i)
    ensures s.peeledRows[i] < |s.columns| && Residual(s, e, s.peeledRows[i], i + 1, a) == Residual(s, d, s.peeledRows[i], i, a)
  {
    hide Add, SumTo, Part, MixSum, Left, Value, Mixed, Remaining, Distinct;
    var p, c := s.peeledRows[i], s.peeledColumns[i];
    RemainingOwn(s, i, a.blocks);
    OwnResidual(s, d, i, a);
    assert RowStepped(s, d, e, i, p) && BlockStepped(s, d, e, i, i);
    AddZero(Value(e.blocks, c));
  }

  // What a row is added to has its residual added.
  lemma StepReferring(s: System, d: Diagonal, e: Diagonal, i: nat, r: nat, a: Assignment)
    requires WellFormed(s) && Sized(s, d) && i < |s.peeledRows| && |a.mixing| == s.mixCount && Stepped(s, d, e, i)
    requires r < |s.columns| && r != s.peeledRows[i] && s.peeledColumns[i] in s.columns[r]
    ensures s.peeledRows[i] < |s.columns|
    ensures Residual(s, e, r, i + 1, a) == Add(Residual(s, d, r, i, a), Residual(s, d, s.peeledRows[i], i, a))
  {
    hide Add, SumTo, Part, MixSum, Left, Value, Mixed, Remaining, Distinct, Right, Stepped, Ordered, Share, PlaceOf, Xor;
    var p, c, y, w := s.peeledRows[i], s.peeledColumns[i], Left(s, a), Width(s);
    LaterRow(s, r, i);
    OwnResidual(s, d, i, a);
    RemainingNext(s, r, i);
    RowDistinct(s, r);
    PartLess(s.columns[r], Remaining(s, r, i), c, a.blocks);
    SteppedRow(s, d, e, i, r);
    var row := Mixed(s, d.matrix[p], s.mixes[p]);
    XorSum(d.matrix[r], row, y, w);
    RightReferring(s, d, e, i, r);
    Regroup(SumTo(d.matrix[r], y, w), SumTo(row, y, w), Part(s.columns[r], Remaining(s, r, i) - {c}, a.blocks), Value(a.blocks, c),
            MixToCome(s, r, i, a), Right(s, d, r, i), ValueSoFar(s.input, d, p, c));
  }

  lemma Regroup(sum: Gf, sumOwn: Gf, part: Gf, own: Gf, mix: Gf, right: Gf, v: Gf)
    ensures Add(Add(Add(sum, sumOwn), part), Add(mix, Add(right, v))) ==
            Add(Add(Add(sum, Add(part, own)), Add(mix, right)), Add(Add(sumOwn, own), v))
  {
    hide Add;
    var left, rest := Add(sum, Add(part, own)), Add(sumOwn, own);
    AddAssoc(mix, right, v);
    AddSwap(left, Add(mix, right), rest, v);
    AddSwap(sum, Add(part, own), sumOwn, own);
    AddAssoc(part, own, own);
    AddSelf(own);
    AddZero(part);
  }

  lemma RowDistinct(s: System, r: nat)
    requires WellFormed(s) && r < |s.columns|
    ensures Distinct(s.columns[r])
  {
    hide Distinct;
  }

  // A row with the column of the row whose turn it is has its own turn later, if ever.
  lemma LaterRow(s: System, r: nat, i: nat)
    requires WellFormed(s) && i < |s.peeledRows| && r < |s.columns| && r != s.peeledRows[i] && s.peeledColumns[i] in s.columns[r]
    ensures PlaceOf(s.peeledRows, r) > i && s.peeledRows[i] < |s.columns| && Width(s) >= 0
  {
    hide Ordered, Distinct;
    var k := PlaceOf(s.peeledRows, r);
    if k < i {
      EarlierLacks(s, k, i);
    }
  }

  lemma SteppedRow(s: System, d: Diagonal, e: Diagonal, i: nat, r: nat)
    requires WellFormed(s) && Sized(s, d) && i < |s.peeledRows| && Stepped(s, d, e, i) && r < |s.columns|
    ensures Sized(s, e) && RowStepped(s, d, e, i, r)
  {
    hide WellFormed, RowStepped, BlockStepped;
  }

  lemma SteppedBlock(s: System, d: Diagonal, e: Diagonal, i: nat, k: nat)
    requires WellFormed(s) && Sized(s, d) && i < |s.peeledRows| && Stepped(s, d, e, i) && k < |s.peeledRows|
    ensures Sized(s, e) && BlockStepped(s, d, e, i, k)
  {
    hide WellFormed, RowStepped, BlockStepped;
  }

  // The blocks of rows that had their turn stay.
  lemma EarlierSame(s: System, d: Diagonal, e: Diagonal, i: nat, columns: seq<nat>)
    requires WellFormed(s) && Sized(s, d) && i < |s.peeledRows| && Stepped(s, d, e, i)
    ensures Part(columns, Elements(s.peeledColumns[..i]), e.blocks) == Part(columns, Elements(s.peeledColumns[..i]), d.blocks)
  {
    hide Part, Value, Stepped, Ordered, Share, Distinct, Sized;
    forall c | c in Elements(s.peeledColumns[..i]) ensures Value(e.blocks, c) == Value(d.blocks, c) {
      var k :| 0 <= k < i && s.peeledColumns[k] == c;
      EarlierBlock(s, d, e, i, k);
    }
    PartSame(columns, Elements(s.peeledColumns[..i]), Elements(s.peeledColumns[..i]), e.blocks, d.blocks);
  }

  lemma EarlierBlock(s: System, d: Diagonal, e: Diagonal, i: nat, k: nat)
    requires WellFormed(s) && Sized(s, d) && k < i < |s.peeledRows| && Stepped(s, d, e, i)
    ensures k < |s.peeledColumns| && Value(e.blocks, s.peeledColumns[k]) == Value(d.blocks, s.peeledColumns[k])
  {
    hide Value, Stepped, Add, Ordered, Distinct;
    SteppedBlock(s, d, e, i, k);
    EarlierLacks(s, k, i);
  }

  lemma RightReferring(s: System, d: Diagonal, e: Diagonal, i: nat, r: nat)
    requires WellFormed(s) && Sized(s, d) && i < |s.peeledRows| && Stepped(s, d, e, i)
    requires r < |s.columns| && r != s.peeledRows[i] && s.peeledColumns[i] in s.columns[r]
    ensures Sized(s, e) && s.peeledRows[i] < |s.columns|
    ensures Right(s, e, r, i + 1) == Add(Right(s, d, r, i), ValueSoFar(s.input, d, s.peeledRows[i], s.peeledColumns[i]))
  {
    hide Add, Part, Value, Distinct, Stepped, Ordered;
    LaterRow(s, r, i);
    var k, c, v := PlaceOf(s.peeledRows, r), s.peeledColumns[i], ValueSoFar(s.input, d, s.peeledRows[i], s.peeledColumns[i]);
    SteppedBlock(s, d, e, i, i);
    if k < |s.peeledRows| {
      SteppedBlock(s, d, e, i, k);
    } else {
      RowDistinct(s, r);
      PeeledParts(s);
      NextElement(s.peeledColumns, i);
      PartMore(s.columns[r], Elements(s.peeledColumns[..i]), c, e.blocks);
      EarlierSame(s, d, e, i, s.columns[r]);
      AddAssoc(s.input[r], Part(s.columns[r], Elements(s.peeledColumns[..i]), d.blocks), v);
    }
  }

  lemma RightOther(s: System, d: Diagonal, e: Diagonal, i: nat, r: nat)
    requires WellFormed(s) && Sized(s, d) && i < |s.peeledRows| && Stepped(s, d, e, i)
    requires r < |s.columns| && r != s.peeledRows[i] && s.peeledColumns[i] !in s.columns[r]
    ensures Sized(s, e) && Right(s, e, r, i + 1) == Right(s, d, r, i)
  {
    hide Add, Part, Value, Distinct, Stepped, Ordered;
    RemainingNext(s, r, i);
    var k, c := PlaceOf(s.peeledRows, r), s.peeledColumns[i];
    SteppedBlock(s, d, e, i, i);
    if k < |s.peeledRows| {
      SteppedBlock(s, d, e, i, k);
    } else {
      RowDistinct(s, r);
      PeeledParts(s);
      NextElement(s.peeledColumns, i);
      PartMore(s.columns[r], Elements(s.peeledColumns[..i]), c, e.blocks);
      EarlierSame(s, d, e, i, s.columns[r]);
    }
  }

  lemma StepOther(s: System, d: Diagonal, e: Diagonal, i: nat, r: nat, a: Assignment)
    requires WellFormed(s) && Sized(s, d) && i < |s.peeledRows| && |a.mixing| == s.mixCount && Stepped(s, d, e, i)
    requires r < |s.columns| && r != s.peeledRows[i] && s.peeledColumns[i] !in s.columns[r]
    ensures Residual(s, e, r, i + 1, a) == Residual(s, d, r, i, a)
  {
    hide Add, SumTo, Part, MixSum, Left, Value, Mixed, Remaining, Distinct, Right, Stepped, PlaceOf, Xor;
    RightOther(s, d, e, i, r);
    RemainingNext(s, r, i);
    RowDistinct(s, r);
    SteppedRow(s, d, e, i, r);
    if PlaceOf(s.peeledRows, r) > i {
      PartLess(s.columns[r], Remaining(s, r, i), s.peeledColumns[i], a.blocks);
    }
  }

  // ---- the whole system ----

  // All rows, or all peeled rows, have a zero residual.
  ghost predicate Zero(s: System, d: Diagonal, i: nat, a: Assignment, peeledOnly: bool)
    requires WellFormed(s) && Sized(s, d) && i <= |s.peeledRows| && |a.mixing| == s.mixCount
  {
    forall r :: 0 <= r < |s.columns| && (peeledOnly ==> r in s.peeledRows) ==> Residual(s, d, r, i, a) == ZERO
  }

  lemma StepRow(s: System, d: Diagonal, e: Diagonal, i: nat, r: nat, a: Assignment)
    requires WellFormed(s) && Sized(s, d) && i < |s.peeledRows| && |a.mixing| == s.mixCount && Stepped(s, d, e, i) && r < |s.columns|
    ensures Sized(s, e) && s.peeledRows[i] < |s.columns|
    ensures Residual(s, d, s.peeledRows[i], i, a) == ZERO ==> Residual(s, e, r, i + 1, a) == Residual(s, d, r, i, a)
    ensures Residual(s, e, s.peeledRows[i], i + 1, a) == Residual(s, d, s.peeledRows[i], i, a)
  {
    hide Residual, Stepped, Add, Ordered, Share, Distinct;
    SteppedRow(s, d, e, i, r);
    StepOwn(s, d, e, i, a);
    if r == s.peeledRows[i] {
    } else if s.peeledColumns[i] in s.columns[r] {
      StepReferring(s, d, e, i, r, a);
      AddZero(Residual(s, d, r, i, a));
    } else {
      StepOther(s, d, e, i, r, a);
    }
  }

  lemma StepZero(s: System, d: Diagonal, e: Diagonal, i: nat, a: Assignment, peeledOnly: bool)
    requires WellFormed(s) && Sized(s, d) && i < |s.peeledRows| && |a.mixing| == s.mixCount && Stepped(s, d, e, i)
    ensures Sized(s, e) && (Zero(s, e, i + 1, a, peeledOnly) <==> Zero(s, d, i, a, peeledOnly))
  {
    hide Residual, Stepped, Sized, Ordered, Share, Distinct;
    var p := s.peeledRows[i];
    OwnRow(s, i);
    StepRow(s, d, e, i, p, a);
    if Residual(s, d, p, i, a) != ZERO {
      assert !Zero(s, d, i, a, peeledOnly) && !Zero(s, e, i + 1, a, peeledOnly);
    } else {
      forall r | 0 <= r < |s.columns|
        ensures (Residual(s, e, r, i + 1, a) == ZERO) == (Residual(s, d, r, i, a) == ZERO)
      {
        StepRow(s, d, e, i, r, a);
      }
      ZeroSame(s, d, i, e, i + 1, a, peeledOnly);
    }
  }

  lemma ZeroSame(s: System, d: Diagonal, i: nat, e: Diagonal, j: nat, a: Assignment, peeledOnly: bool)
    requires WellFormed(s) && Sized(s, d) && Sized(s, e) && i <= |s.peeledRows| && j <= |s.peeledRows| && |a.mixing| == s.mixCount
    requires forall r :: 0 <= r < |s.columns| ==> (Residual(s, e, r, j, a) == ZERO) == (Residual(s, d, r, i, a) == ZERO)
    ensures Zero(s, e, j, a, peeledOnly) <==> Zero(s, d, i, a, peeledOnly)
  {
    hide Residual, Sized, Ordered, Share, Distinct;
  }

  lemma OwnRow(s: System, i: nat)
    requires WellFormed(s) && i < |s.peeledRows|
    ensures s.peeledRows[i] < |s.columns| && s.peeledRows[i] in s.peeledRows
  {
    hide Ordered, Distinct;
  }
}
