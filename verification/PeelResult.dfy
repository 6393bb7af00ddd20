// What diagonalisation is for: the columns left over decide whether a solution
// exists, and the peeled columns follow from them.
module PeelResult {
  import opened Collections
  import opened Gf256
  import opened Weyl
  import opened Peels
  import opened PeelAlgebra
  import opened PeelSystem
  import opened PeelSteps

  ghost predicate RowsHold(s: System, a: Assignment, peeledOnly: bool)
    requires WellFormed(s)
  {
    forall r :: 0 <= r < |s.columns| && (peeledOnly ==> r in s.peeledRows) ==> Defect(s, r, a) == ZERO
  }

  // The residuals of all rows vanish when the rows hold, and so for the peeled
  // rows alone.
  ghost predicate Equivalent(s: System, d: Diagonal, i: nat)
    requires WellFormed(s) && Sized(s, d) && i <= |s.peeledRows|
  {
    forall a: Assignment, peeledOnly: bool :: |a.mixing| == s.mixCount ==> (Zero(s, d, i, a, peeledOnly) <==> RowsHold(s, a, peeledOnly))
  }

  lemma StartedEquivalent(s: System, d: Diagonal)
    requires WellFormed(s) && Started(s, d)
    ensures Sized(s, d) && Equivalent(s, d, 0)
  {
    hide Residual, Defect, Ordered, Share, Distinct, Sized, DeferredBits, Mixed;
    forall a: Assignment, peeledOnly: bool | |a.mixing| == s.mixCount
      ensures Zero(s, d, 0, a, peeledOnly) <==> RowsHold(s, a, peeledOnly)
    {
      forall r | 0 <= r < |s.columns| ensures Residual(s, d, r, 0, a) == Defect(s, r, a) {
        StartedResidual(s, d, r, a);
      }
    }
  }

  lemma SteppedEquivalent(s: System, d: Diagonal, e: Diagonal, i: nat)
    requires WellFormed(s) && Sized(s, d) && i < |s.peeledRows| && Equivalent(s, d, i) && Stepped(s, d, e, i)
    ensures Sized(s, e) && Equivalent(s, e, i + 1)
  {
    hide Zero, RowsHold, Sized, Stepped, Ordered, Share, Distinct;
    StepZero(s, d, e, i, Assignment([], []).(mixing := seq(s.mixCount, _ => ZERO)), false);
    forall a: Assignment, peeledOnly: bool | |a.mixing| == s.mixCount
      ensures Zero(s, e, i + 1, a, peeledOnly) <==> RowsHold(s, a, peeledOnly)
    {
      StepZero(s, d, e, i, a, peeledOnly);
    }
  }

  // ---- the reduced system ----

  // The equation a deferred row leaves for the columns that are left: its data
  // with the values of its peeled columns.
  ghost predicate Reduced(s: System, d: Diagonal, r: nat, a: Assignment)
    requires WellFormed(s) && Sized(s, d) && r < |s.columns| && |a.mixing| == s.mixCount
  {
    SumTo(d.matrix[r], Left(s, a), Width(s)) == Add(s.input[r], Part(s.columns[r], Elements(s.peeledColumns), d.blocks))
  }

  // The value of a peeled column, given the columns that are left.
  ghost function Follows(s: System, d: Diagonal, k: nat, a: Assignment): Gf
    requires WellFormed(s) && Sized(s, d) && k < |s.peeledRows| && |a.mixing| == s.mixCount
  {
    PeeledParts(s);
    Add(SumTo(d.matrix[s.peeledRows[k]], Left(s, a), Width(s)), Value(d.blocks, s.peeledColumns[k]))
  }

  lemma AddZeroIff(a: Gf, b: Gf)
    ensures Add(a, b) == ZERO <==> a == b
  {
    hide Add;
    AddSelf(a);
    if Add(a, b) == ZERO {
      AddAssoc(a, b, b);
      AddSelf(b);
      AddZero(a);
      AddZero(b);
    }
  }

  lemma DeferredResidual(s: System, d: Diagonal, r: nat, a: Assignment)
    requires WellFormed(s) && Sized(s, d) && r < |s.columns| && |a.mixing| == s.mixCount && r !in s.peeledRows
    ensures Residual(s, d, r, |s.peeledRows|, a) == ZERO <==> Reduced(s, d, r, a)
  {
    hide Add, SumTo, Part, Left, Value, Ordered, Share, Distinct, MixSum;
    var n, sum := |s.peeledRows|, SumTo(d.matrix[r], Left(s, a), Width(s));
    assert s.peeledColumns[..n] == s.peeledColumns;
    assert Remaining(s, r, n) == {};
    PartNone(s.columns[r], {}, a.blocks);
    AddZero(sum);
    AddZero(Right(s, d, r, n));
    AddZeroIff(sum, Right(s, d, r, n));
  }

  lemma PeeledResidual(s: System, d: Diagonal, k: nat, a: Assignment)
    requires WellFormed(s) && Sized(s, d) && k < |s.peeledRows| && |a.mixing| == s.mixCount
    ensures s.peeledRows[k] < |s.columns|
    ensures Residual(s, d, s.peeledRows[k], |s.peeledRows|, a) == ZERO <==> Value(a.blocks, s.peeledColumns[k]) == Follows(s, d, k, a)
  {
    hide Add, SumTo, Part, Left, Value, Ordered, Share, Distinct, MixSum, Elements;
    PeeledParts(s);
    var n, p, c := |s.peeledRows|, s.peeledRows[k], s.peeledColumns[k];
    var sum, x, v := SumTo(d.matrix[p], Left(s, a), Width(s)), Value(a.blocks, c), Value(d.blocks, c);
    RemainingOwn(s, k, a.blocks);
    assert Remaining(s, p, n) == Remaining(s, p, k);
    AddZero(v);
    AddComm(sum, x);
    AddAssoc(x, sum, v);
    AddZeroIff(x, Add(sum, v));
  }

  ghost predicate AllReduced(s: System, d: Diagonal, a: Assignment)
    requires WellFormed(s) && Sized(s, d) && |a.mixing| == s.mixCount
  {
    forall r :: 0 <= r < |s.columns| && r in s.deferredRows ==> Reduced(s, d, r, a)
  }

  ghost predicate AllFollow(s: System, d: Diagonal, a: Assignment)
    requires WellFormed(s) && Sized(s, d) && |a.mixing| == s.mixCount
  {
    forall k :: 0 <= k < |s.peeledRows| ==> Value(a.blocks, s.peeledColumns[k]) == Follows(s, d, k, a)
  }

  lemma PeeledZero(s: System, d: Diagonal, a: Assignment)
    requires WellFormed(s) && Sized(s, d) && |a.mixing| == s.mixCount
    ensures Zero(s, d, |s.peeledRows|, a, true) <==> AllFollow(s, d, a)
  {
    hide Residual, Follows, Sized, Ordered, Share, Distinct, Value;
    var n := |s.peeledRows|;
    forall k | 0 <= k < n
      ensures s.peeledRows[k] < |s.columns|
      ensures Residual(s, d, s.peeledRows[k], n, a) == ZERO <==> Value(a.blocks, s.peeledColumns[k]) == Follows(s, d, k, a)
    {
      PeeledResidual(s, d, k, a);
    }
    if AllFollow(s, d, a) {
      forall r | 0 <= r < |s.columns| && r in s.peeledRows ensures Residual(s, d, r, n, a) == ZERO {
        var k :| 0 <= k < n && s.peeledRows[k] == r;
      }
    } else {
      var k :| 0 <= k < n && Value(a.blocks, s.peeledColumns[k]) != Follows(s, d, k, a);
      assert Residual(s, d, s.peeledRows[k], n, a) != ZERO;
    }
  }

  lemma WholeZero(s: System, d: Diagonal, a: Assignment)
    requires WellFormed(s) && Sized(s, d) && |a.mixing| == s.mixCount
    ensures Zero(s, d, |s.peeledRows|, a, false) <==> Zero(s, d, |s.peeledRows|, a, true) && AllReduced(s, d, a)
  {
    hide Residual, Reduced, Sized, Ordered, Distinct;
    var n := |s.peeledRows|;
    forall r | 0 <= r < |s.columns| && r !in s.peeledRows
      ensures r in s.deferredRows && (Residual(s, d, r, n, a) == ZERO <==> Reduced(s, d, r, a))
    {
      DeferredResidual(s, d, r, a);
    }
    forall r | r in s.deferredRows ensures r !in s.peeledRows {}
  }

  // The received rows hold exactly if the columns left satisfy the reduced
  // equations and the peeled columns follow from them.
  lemma ReducedSystem(s: System, d: Diagonal, a: Assignment)
    requires WellFormed(s) && Sized(s, d) && |a.mixing| == s.mixCount && Equivalent(s, d, |s.peeledRows|)
    ensures RowsHold(s, a, false) <==> AllReduced(s, d, a) && AllFollow(s, d, a)
    ensures RowsHold(s, a, true) <==> AllFollow(s, d, a)
  {
    hide Zero, RowsHold, Sized, AllReduced, AllFollow, Ordered, Share, Distinct;
    assert Zero(s, d, |s.peeledRows|, a, false) <==> RowsHold(s, a, false);
    assert Zero(s, d, |s.peeledRows|, a, true) <==> RowsHold(s, a, true);
    PeeledZero(s, d, a);
    WholeZero(s, d, a);
  }

  // Assignments that agree on the columns that are left leave the same equations.
  lemma ReducedSame(s: System, d: Diagonal, a: Assignment, b: Assignment)
    requires WellFormed(s) && Sized(s, d) && |a.mixing| == s.mixCount && b.mixing == a.mixing
    requires forall c :: c in s.deferredColumns ==> Value(b.blocks, c) == Value(a.blocks, c)
    ensures AllReduced(s, d, b) <==> AllReduced(s, d, a)
  {
    hide SumTo, Part, Ordered, Share, Distinct, Sized, Value;
    assert Left(s, b) == Left(s, a);
    forall r | 0 <= r < |s.columns| ensures Reduced(s, d, r, b) == Reduced(s, d, r, a) {}
  }

  // The columns left extend to a solution of all rows received exactly if they
  // satisfy the reduced equations, and then in one way only.
  lemma Extension(s: System, d: Diagonal, a: Assignment)
    requires WellFormed(s) && Sized(s, d) && |a.mixing| == s.mixCount && Equivalent(s, d, |s.peeledRows|)
    ensures AllReduced(s, d, a) <==>
            exists b: Assignment :: Extends(s, a, b) && RowsHold(s, b, false)
    ensures forall b: Assignment, c: Assignment :: Extends(s, a, b) && Extends(s, a, c) && RowsHold(s, b, false) && RowsHold(s, c, false) ==>
              forall k :: 0 <= k < |s.peeledColumns| ==> Value(b.blocks, s.peeledColumns[k]) == Value(c.blocks, s.peeledColumns[k])
  {
    hide Sized, Ordered, Share, Distinct, AllReduced, AllFollow, RowsHold, Equivalent, Value;
    forall b: Assignment | Extends(s, a, b)
      ensures RowsHold(s, b, false) ==> AllReduced(s, d, a) && AllFollow(s, d, b)
    {
      ExtendsParts(s, a, b);
      ReducedSame(s, d, a, b);
      ReducedSystem(s, d, b);
    }
    var full := Filled(s, d, a);
    FilledFollows(s, d, a);
    ReducedSame(s, d, a, full);
    ReducedSystem(s, d, full);
    forall b: Assignment, c: Assignment | Extends(s, a, b) && Extends(s, a, c) && RowsHold(s, b, false) && RowsHold(s, c, false)
      ensures forall k :: 0 <= k < |s.peeledColumns| ==> Value(b.blocks, s.peeledColumns[k]) == Value(c.blocks, s.peeledColumns[k])
    {
      FollowSame(s, d, a, b, c);
    }
  }

  // b has the values of a in the columns left.
  ghost predicate Extends(s: System, a: Assignment, b: Assignment) {
    b.mixing == a.mixing && forall c :: c in s.deferredColumns ==> Value(b.blocks, c) == Value(a.blocks, c)
  }

  lemma ExtendsParts(s: System, a: Assignment, b: Assignment)
    requires Extends(s, a, b)
    ensures b.mixing == a.mixing && forall c :: c in s.deferredColumns ==> Value(b.blocks, c) == Value(a.blocks, c)
  {
    hide Value;
  }

  lemma FollowSame(s: System, d: Diagonal, a: Assignment, b: Assignment, c: Assignment)
    requires WellFormed(s) && Sized(s, d) && |a.mixing| == s.mixCount && Extends(s, a, b) && Extends(s, a, c)
    requires AllFollow(s, d, b) && AllFollow(s, d, c)
    ensures forall k :: 0 <= k < |s.peeledColumns| ==> Value(b.blocks, s.peeledColumns[k]) == Value(c.blocks, s.peeledColumns[k])
  {
    hide Sized, Ordered, Share, Distinct, Value, SumTo;
    assert Left(s, b) == Left(s, c);
    forall k | 0 <= k < |s.peeledColumns| ensures Value(b.blocks, s.peeledColumns[k]) == Value(c.blocks, s.peeledColumns[k]) {
      assert Follows(s, d, k, b) == Follows(s, d, k, c);
    }
  }

  ghost function Filled(s: System, d: Diagonal, a: Assignment): (b: Assignment)
    requires WellFormed(s) && Sized(s, d) && |a.mixing| == s.mixCount
  {
    Assignment(seq(BlockCount(s), c requires 0 <= c < BlockCount(s) =>
                 var k := PlaceOf(s.peeledColumns, c);
                 if k < |s.peeledColumns| then Follows(s, d, k, a) else Value(a.blocks, c)), a.mixing)
  }

  lemma FilledFollows(s: System, d: Diagonal, a: Assignment)
    requires WellFormed(s) && Sized(s, d) && |a.mixing| == s.mixCount
    ensures var b := Filled(s, d, a); b.mixing == a.mixing && Extends(s, a, b) && AllFollow(s, d, b)
    ensures forall c :: c in s.deferredColumns ==> Value(Filled(s, d, a).blocks, c) == Value(a.blocks, c)
  {
    hide Sized, Ordered, Distinct, SumTo;
    var b := Filled(s, d, a);
    PeeledParts(s);
    forall c | c in s.deferredColumns ensures Value(b.blocks, c) == Value(a.blocks, c) {
      assert c !in s.peeledColumns;
    }
    assert Left(s, b) == Left(s, a);
    forall k | 0 <= k < |s.peeledRows| ensures Value(b.blocks, s.peeledColumns[k]) == Follows(s, d, k, b) {
      PlaceAt(s.peeledColumns, k);
      assert s.peeledColumns[k] in s.peeledColumns;
      assert Follows(s, d, k, b) == Follows(s, d, k, a);
    }
  }

  // ---- computing the peeled columns ----

  ghost function Base(s: System, p: nat, mixing: seq<Gf>): Gf
    requires p < |s.mixes| && p < |s.input| && |s.mixes[p]| == 3
  {
    Add(MixSum(s.mixes[p], mixing), s.input[p])
  }

  // Block c made the sum of its row's other columns, the row holds.
  lemma OneSolved(s: System, k: nat, a: Assignment, b: Assignment)
    requires WellFormed(s) && k < |s.peeledRows| && s.peeledRows[k] < |s.columns| && b.mixing == a.mixing
    requires s.peeledColumns[k] < |a.blocks| == |b.blocks| && forall c :: 0 <= c < |a.blocks| && c != s.peeledColumns[k] ==> b.blocks[c] == a.blocks[c]
    requires b.blocks[s.peeledColumns[k]] ==
             Add(Base(s, s.peeledRows[k], a.mixing), Part(s.columns[s.peeledRows[k]], Every(s) - {s.peeledColumns[k]}, a.blocks))
    ensures Defect(s, s.peeledRows[k], b) == ZERO
  {
    hide Add, Part, Distinct, Share, MixSum;
    var p, c := s.peeledRows[k], s.peeledColumns[k];
    var others := Every(s) - {c};
    assert Ordered(s, k) && c in Every(s);
    PartLess(s.columns[p], Every(s), c, b.blocks);
    PartSame(s.columns[p], others, others, b.blocks, a.blocks);
    Cancels(Part(s.columns[p], others, a.blocks), MixSum(s.mixes[p], a.mixing), s.input[p]);
  }

  lemma Cancels(part: Gf, mix: Gf, input: Gf)
    ensures Add(Add(Add(part, Add(Add(mix, input), part)), mix), input) == ZERO
  {
    hide Add;
    var v := Add(mix, input);
    AddComm(v, part);
    AddCancel(part, v);
    AddAssoc(Add(part, Add(v, part)), mix, input);
    AddSelf(v);
  }

  // Rows solved before keep holding.
  lemma OthersSolved(s: System, k: nat, i: nat, a: Assignment, b: Assignment)
    requires WellFormed(s) && k < i < |s.peeledRows| && s.peeledRows[k] < |s.columns| && b.mixing == a.mixing
    requires |a.blocks| == |b.blocks| && forall c :: 0 <= c < |a.blocks| && c != s.peeledColumns[i] ==> b.blocks[c] == a.blocks[c]
    ensures Defect(s, s.peeledRows[k], b) == Defect(s, s.peeledRows[k], a)
  {
    hide Add, Part, Distinct, Share, MixSum, Ordered;
    EarlierLacks(s, k, i);
    PartSame(s.columns[s.peeledRows[k]], Every(s), Every(s), b.blocks, a.blocks);
  }

  // The first i peeled rows hold.
  ghost predicate HoldUpTo(s: System, a: Assignment, i: nat)
    requires WellFormed(s)
  {
    i <= |s.peeledRows| && forall k :: 0 <= k < i ==> s.peeledRows[k] < |s.columns| && Defect(s, s.peeledRows[k], a) == ZERO
  }

  lemma HoldNone(s: System, a: Assignment)
    requires WellFormed(s)
    ensures HoldUpTo(s, a, 0)
  {}

  lemma HoldNext(s: System, i: nat, a: Assignment, b: Assignment)
    requires WellFormed(s) && HoldUpTo(s, a, i) && i < |s.peeledRows| && s.peeledRows[i] < |s.columns| && b.mixing == a.mixing
    requires s.peeledColumns[i] < |a.blocks|
    requires b.blocks == a.blocks[s.peeledColumns[i] :=
               Add(Base(s, s.peeledRows[i], a.mixing), Part(s.columns[s.peeledRows[i]], Every(s) - {s.peeledColumns[i]}, a.blocks))]
    ensures HoldUpTo(s, b, i + 1)
  {
    hide Add, Part, Distinct, Share, MixSum, Ordered, Defect, Base, Every;
    OneSolved(s, i, a, b);
    forall k | 0 <= k < i ensures Defect(s, s.peeledRows[k], b) == ZERO {
      OthersSolved(s, k, i, a, b);
    }
  }

  lemma HoldAll(s: System, a: Assignment)
    requires WellFormed(s) && HoldUpTo(s, a, |s.peeledRows|)
    ensures RowsHold(s, a, true)
  {
    hide Defect, Ordered, Share, Distinct;
    forall r | 0 <= r < |s.columns| && r in s.peeledRows ensures Defect(s, r, a) == ZERO {
      var k :| 0 <= k < |s.peeledRows| && s.peeledRows[k] == r;
    }
  }
}
