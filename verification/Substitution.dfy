// Solving with the peeled rows: their columns are substituted before elimination
// and computed, in the same order, after it.
module Substitution {
  import opened Collections
  import opened Gf256
  import opened Weyl
  import opened Peels
  import opened Peeling
  import opened PeelAlgebra
  import opened PeelSystem
  import opened PeelSteps
  import opened PeelResult
  import opened Compression

  class BlockSolver {
    const Columns: seq<seq<nat>>      // of the rows, as their parameters generate them
    const Mixes: seq<seq<nat>>
    const InputBlocks: seq<Gf>
    const MixCount: nat
    const BlockCount: nat
    const Refs: seq<seq<nat>>
    const Marks: seq<Mark>
    const NextRow: seq<nat>
    const PeelHead: nat
    const DeferHead: nat
    const NextColumn: seq<nat>
    const DeferHeadColumns: nat
    const DeferCount: nat
    ghost const S: System
    var PeelColumns: seq<nat>         // by row: the column it solves
    var IsCopied: seq<bool>
    var CompressMatrix: seq<seq<bool>>
    var GeColMap: seq<nat>
    var RecoveryBlocks: seq<Gf>

    ghost predicate Static() {
      && WellFormed(S) && S.columns == Columns && S.mixes == Mixes && S.input == InputBlocks && S.mixCount == MixCount
      && BlockCount == PeelSystem.BlockCount(S) && References(Columns, Refs) && |Refs| == |Marks| == BlockCount < LIST_TERM
      && Chain(NextRow, PeelHead, S.peeledRows) && Chain(NextRow, DeferHead, S.deferredRows) && |NextRow| <= LIST_TERM
      && Chain(NextColumn, DeferHeadColumns, S.deferredColumns) && |NextColumn| <= LIST_TERM
      && DeferCount == |S.deferredColumns|
      && forall c: nat :: c in S.peeledColumns <==> c < |Marks| && Marks[c] == Peel
    }

    // Takes over what peeling left.
    constructor (codec: Codec, mixes: seq<seq<nat>>, input: seq<Gf>, mixCount: nat, blocks: seq<Gf>)
      requires codec.Complete() && |mixes| == |input| == |codec.Columns| && |blocks| == |codec.Marks| + mixCount
      requires forall r :: 0 <= r < |mixes| ==> |mixes[r]| == 3 && Within(mixes[r], mixCount)
      ensures Static() && RecoveryBlocks == blocks && SolvedBy(PeelColumns)
      ensures |CompressMatrix| == |IsCopied| == |Columns| && forall r :: 0 <= r < |IsCopied| ==> !IsCopied[r]
      ensures Blank(CompressMatrix)
      ensures S == System(codec.Columns, mixes, input, mixCount, codec.PeeledRows, codec.PeeledColumns, codec.DeferredRows, codec.DeferredColumns)
    {
      hide *;
      var deferCount, unmarkedColumns := codec.DeferCount, codec.UnmarkedColumns;
      CompleteParts(codec, mixes, input, mixCount);
      Columns, Mixes, InputBlocks, MixCount, BlockCount := codec.Columns, mixes, input, mixCount, |codec.Marks|;
      Refs, Marks, NextRow, PeelHead, DeferHead := codec.Refs, codec.Marks, codec.NextRow, codec.PeelHead, codec.DeferHead;
      NextColumn, DeferHeadColumns, DeferCount := codec.NextColumn, codec.DeferHeadColumns, deferCount;
      S := System(codec.Columns, mixes, input, mixCount, codec.PeeledRows, codec.PeeledColumns, codec.DeferredRows, codec.DeferredColumns);
      RecoveryBlocks, GeColMap := blocks, [];
      IsCopied := seq(|codec.Columns|, _ => false);
      CompressMatrix := Zeros(|codec.Columns|, deferCount + mixCount);
      PeelColumns := ResultColumns(unmarkedColumns);
      new;
      StaticWhole();
      SolvedWhole(unmarkedColumns);
      BlankWhole();
    }

    // A row of zeros for every row received.
    ghost predicate Blank(matrix: seq<seq<bool>>) {
      |matrix| == |Columns| && forall r :: 0 <= r < |matrix| ==> |matrix[r]| == Width(S) && forall j :: 0 <= j < Width(S) ==> !matrix[r][j]
    }

    // Each peeled row knows the column it solves.
    ghost predicate SolvedBy(peelColumns: seq<nat>) {
      && |peelColumns| == |Columns| && |S.peeledRows| == |S.peeledColumns|
      && forall k :: 0 <= k < |S.peeledRows| ==> S.peeledRows[k] < |peelColumns| && peelColumns[S.peeledRows[k]] == S.peeledColumns[k]
    }

    lemma StaticWhole()
      requires WellFormed(S) && S.columns == Columns && S.mixes == Mixes && S.input == InputBlocks && S.mixCount == MixCount
      requires BlockCount == PeelSystem.BlockCount(S) && References(Columns, Refs) && |Refs| == |Marks| == BlockCount < LIST_TERM
      requires Chain(NextRow, PeelHead, S.peeledRows) && Chain(NextRow, DeferHead, S.deferredRows) && |NextRow| <= LIST_TERM
      requires Chain(NextColumn, DeferHeadColumns, S.deferredColumns) && |NextColumn| <= LIST_TERM
      requires DeferCount == |S.deferredColumns|
      requires forall c: nat :: c in S.peeledColumns <==> c < |Marks| && Marks[c] == Peel
      ensures Static()
    {
      hide WellFormed, References, Chain;
    }

    lemma SolvedWhole(unmarkedColumns: seq<RowMarks>)
      requires PeelColumns == ResultColumns(unmarkedColumns) && |unmarkedColumns| == |Columns| && |S.peeledRows| == |S.peeledColumns|
      requires forall k :: 0 <= k < |S.peeledRows| ==>
                 S.peeledRows[k] < |unmarkedColumns| && unmarkedColumns[S.peeledRows[k]] == Result(S.peeledColumns[k])
      ensures SolvedBy(PeelColumns)
    {}

    lemma BlankWhole()
      requires CompressMatrix == Zeros(|Columns|, DeferCount + MixCount) && DeferCount == |S.deferredColumns| && MixCount == S.mixCount
      ensures Blank(CompressMatrix)
    {}

    ghost function Current(): (d: Diagonal)
      reads this`CompressMatrix, this`RecoveryBlocks, this`IsCopied
    {
      Diagonal(CompressMatrix, RecoveryBlocks, IsCopied)
    }

    lemma CurrentIs()
      ensures Current() == Diagonal(CompressMatrix, RecoveryBlocks, IsCopied)
    {}

    lemma DeferredWalk(i: nat)
      requires Static()
      ensures DeferHeadColumns == At(S.deferredColumns, 0) && (At(S.deferredColumns, i) == LIST_TERM) == (i >= |S.deferredColumns|)
      ensures i < |S.deferredColumns| ==>
                var c := S.deferredColumns[i];
                At(S.deferredColumns, i) == c && c < |NextColumn| && c < |Refs| && NextColumn[c] == At(S.deferredColumns, i + 1)
      ensures S.columns == Columns && References(Columns, Refs) && DeferCount == |S.deferredColumns|
    {
      hide WellFormed, References, Chain;
      WalkOn(NextColumn, DeferHeadColumns, S.deferredColumns, i);
      if i < |S.deferredColumns| {
        DeferredWithin(S, i);
      }
    }

    // Sets the bits of the deferred columns.
    method SetDeferredColumns()
      requires Static() && Blank(CompressMatrix)
      modifies this`CompressMatrix, this`GeColMap
      ensures MixedUpTo(S, CompressMatrix, 0)
      ensures GeColMap == S.deferredColumns + Counting(BlockCount, MixCount)
    {
      hide *;
      BlankBits();
      GeColMap := [];
      DeferredWalk(0);
      var column, geColumn := DeferHeadColumns, 0;
      assert S.deferredColumns[..0] == [];
      while column != LIST_TERM
        invariant geColumn <= |S.deferredColumns| && column == At(S.deferredColumns, geColumn)
        invariant BitsUpTo(S, CompressMatrix, geColumn, []) && GeColMap == S.deferredColumns[..geColumn]
        decreases |S.deferredColumns| - geColumn
      {
        DeferredWalk(geColumn);
        SetColumn(column, geColumn);
        GeColMap := GeColMap + [column];
        column := NextColumn[column];
        geColumn := geColumn + 1;
      }
      DeferredWalk(geColumn);
      assert S.deferredColumns[..geColumn] == S.deferredColumns;
      BitsAll(S, CompressMatrix);
      var added := 0;
      CountingNext(BlockCount, 0);
      while added < MixCount
        invariant added <= MixCount && GeColMap == S.deferredColumns + Counting(BlockCount, added) && MixedUpTo(S, CompressMatrix, 0)
      {
        CountingNext(BlockCount, added);
        GeColMap := GeColMap + [BlockCount + added];
        added := added + 1;
      }
    }

    method SetColumn(column: nat, geColumn: nat)
      requires Static() && geColumn < |S.deferredColumns| && column == S.deferredColumns[geColumn] && column < |Refs|
      requires BitsUpTo(S, CompressMatrix, geColumn, [])
      modifies this`CompressMatrix
      ensures BitsUpTo(S, CompressMatrix, geColumn + 1, [])
    {
      hide *;
      DeferredWalk(geColumn);
      var i := 0;
      assert Refs[column][..0] == [];
      while i < |Refs[column]|
        invariant i <= |Refs[column]| && BitsUpTo(S, CompressMatrix, geColumn, Refs[column][..i])
      {
        BitsSize(S, CompressMatrix, geColumn, Refs[column][..i]);
        RefWithin(Columns, Refs, column, i);
        var row := Refs[column][i];
        BitSet(S, CompressMatrix, geColumn, Refs[column][..i], row);
        CompressMatrix := CompressMatrix[row := CompressMatrix[row][geColumn := true]];
        assert Refs[column][..i + 1] == Refs[column][..i] + [row];
        i := i + 1;
      }
      assert Refs[column][..i] == Refs[column];
      BitsNext(S, Refs, CompressMatrix, geColumn);
    }

    lemma RowWalk(i: nat)
      requires Static()
      ensures DeferHead == At(S.deferredRows, 0) && (At(S.deferredRows, i) == LIST_TERM) == (i >= |S.deferredRows|)
      ensures i < |S.deferredRows| ==>
                var r := S.deferredRows[i]; At(S.deferredRows, i) == r && r < |NextRow| && NextRow[r] == At(S.deferredRows, i + 1)
      ensures WellFormed(S) && S.mixes == Mixes && DeferCount == |S.deferredColumns|
    {
      hide WellFormed, References, Chain;
      WalkOn(NextRow, DeferHead, S.deferredRows, i);
    }

    // Marks the deferred rows and flips the bits of their mixing columns.
    method SetMixingColumnsForDeferredRows()
      requires Static() && MixedUpTo(S, CompressMatrix, 0) && SolvedBy(PeelColumns)
      modifies this`CompressMatrix, this`PeelColumns
      ensures MixedUpTo(S, CompressMatrix, |S.deferredRows|) && SolvedBy(PeelColumns)
      ensures MarkedDeferred(PeelColumns, |S.deferredRows|)
    {
      hide *;
      RowWalk(0);
      MarkedNone(PeelColumns);
      var row := DeferHead;
      ghost var i := 0;
      while row != LIST_TERM
        invariant i <= |S.deferredRows| && row == At(S.deferredRows, i)
        invariant MixedUpTo(S, CompressMatrix, i) && SolvedBy(PeelColumns) && MarkedDeferred(PeelColumns, i)
        decreases |S.deferredRows| - i
      {
        RowWalk(i);
        MarkOne(PeelColumns, i);
        PeelColumns := PeelColumns[row := LIST_TERM];
        MixedNext(S, CompressMatrix, i);
        SetMixingColumns(row);
        row := NextRow[row];
        i := i + 1;
      }
      RowWalk(i);
    }

    // Flips the row's three mixing columns.
    method SetMixingColumns(row: nat)
      requires Static() && row < |CompressMatrix| && |CompressMatrix[row]| == Width(S)
      requires row < |S.mixes| && |S.mixes[row]| == 3 && Within(S.mixes[row], S.mixCount)
      modifies this`CompressMatrix
      ensures CompressMatrix == old(CompressMatrix)[row := Mixed(S, old(CompressMatrix)[row], S.mixes[row])]
    {
      hide Flip, WellFormed, References, Chain;
      var matrix, mix := CompressMatrix, Mixes[row];
      CompressMatrix := CompressMatrix[row := Flip(CompressMatrix[row], DeferCount + mix[0])];
      CompressMatrix := CompressMatrix[row := Flip(CompressMatrix[row], DeferCount + mix[1])];
      CompressMatrix := CompressMatrix[row := Flip(CompressMatrix[row], DeferCount + mix[2])];
    }

    // The first i deferred rows solve no column.
    ghost predicate MarkedDeferred(peelColumns: seq<nat>, i: nat) {
      i <= |S.deferredRows| && forall k :: 0 <= k < i ==> S.deferredRows[k] < |peelColumns| && peelColumns[S.deferredRows[k]] == LIST_TERM
    }

    lemma MarkedNone(peelColumns: seq<nat>)
      ensures MarkedDeferred(peelColumns, 0)
    {}

    lemma MarkOne(peelColumns: seq<nat>, i: nat)
      requires Static() && MarkedDeferred(peelColumns, i) && SolvedBy(peelColumns) && i < |S.deferredRows|
      ensures S.deferredRows[i] < |peelColumns| && MarkedDeferred(peelColumns[S.deferredRows[i] := LIST_TERM], i + 1)
      ensures SolvedBy(peelColumns[S.deferredRows[i] := LIST_TERM])
    {
      hide References, Chain, Distinct, Ordered;
      var r := S.deferredRows[i];
      assert r in S.deferredRows && r !in S.peeledRows;
    }

    lemma PeeledWalk(i: nat)
      requires Static() && SolvedBy(PeelColumns)
      ensures WellFormed(S) && PeelHead == At(S.peeledRows, 0) && (At(S.peeledRows, i) == LIST_TERM) == (i >= |S.peeledRows|)
      ensures |S.peeledRows| == |S.peeledColumns|
      ensures i < |S.peeledRows| ==>
                var r := S.peeledRows[i];
                && At(S.peeledRows, i) == r && r < |NextRow| && NextRow[r] == At(S.peeledRows, i + 1)
                && r < |PeelColumns| == |S.columns| == |S.mixes| == |S.input| && PeelColumns[r] == S.peeledColumns[i]
                && |S.mixes[r]| == 3 && Within(S.mixes[r], S.mixCount) && S.peeledColumns[i] < |Refs|
    {
      hide References, Chain, Distinct, Ordered, Within;
      WalkOn(NextRow, PeelHead, S.peeledRows, i);
      if i < |S.peeledRows| {
        assert S.peeledColumns[i] in S.peeledColumns;
      }
    }

    lemma StaticIs()
      requires Static()
      ensures WellFormed(S) && S.columns == Columns && S.mixes == Mixes && S.input == InputBlocks && S.mixCount == MixCount
      ensures References(Columns, Refs) && BlockCount == PeelSystem.BlockCount(S) == |Refs| && |S.columns| == |S.mixes| == |S.input|
    {
      hide References, Chain, Share, Distinct, Ordered, Within;
    }

    // Substitutes the peeled columns, in the order they were solved.
    method PeelDiagonal()
      requires Static() && Started(S, Current()) && SolvedBy(PeelColumns) && MarkedDeferred(PeelColumns, |S.deferredRows|)
      modifies this`CompressMatrix, this`RecoveryBlocks, this`IsCopied
      ensures Sized(S, Current()) && Equivalent(S, Current(), |S.peeledRows|)
    {
      hide *;
      PeeledWalk(0);
      StartedEquivalent(S, Current());
      var row := PeelHead;
      ghost var i := 0;
      while row != LIST_TERM
        invariant i <= |S.peeledRows| && row == At(S.peeledRows, i)
        invariant Sized(S, Current()) && Equivalent(S, Current(), i)
        decreases |S.peeledRows| - i
      {
        PeeledWalk(i);
        ghost var before := Current();
        TakeTurn(row, i);
        SteppedEquivalent(S, before, Current(), i);
        row := NextRow[row];
        i := i + 1;
      }
      PeeledWalk(i);
    }

    // One peeled row's turn.
    method TakeTurn(row: nat, ghost i: nat)
      requires Static() && WellFormed(S) && Sized(S, Current()) && SolvedBy(PeelColumns) && MarkedDeferred(PeelColumns, |S.deferredRows|)
      requires i < |S.peeledRows| && row == S.peeledRows[i]
      modifies this`CompressMatrix, this`RecoveryBlocks, this`IsCopied
      ensures Stepped(S, old(Current()), Current(), i)
    {
      hide *;
      PeeledWalk(i);
      StaticIs();
      ghost var d := Current();
      var column := PeelColumns[row];
      StartTurn(row, column, i);
      var j := 0;
      assert Refs[column][..0] == [];
      while j < |Refs[column]|
        invariant j <= |Refs[column]| && Partly(S, d, Current(), i, Refs[column][..j])
      {
        RefWithin(Columns, Refs, column, j);
        var refRow := Refs[column][j];
        if refRow == row {
          PartlyOwn(S, d, Current(), i, Refs[column][..j]);
        } else {
          AddTo(refRow, row, column, d, i, Refs[column][..j]);
        }
        assert Refs[column][..j + 1] == Refs[column][..j] + [refRow];
        j := j + 1;
      }
      assert Refs[column][..j] == Refs[column];
      PartlyAll(S, d, Current(), i, Refs);
    }

    // The row's own bits and block.
    method StartTurn(row: nat, column: nat, ghost i: nat)
      requires Static() && WellFormed(S) && Sized(S, Current())
      requires i < |S.peeledRows| && row == S.peeledRows[i] && column == S.peeledColumns[i] && column < |Refs|
      requires row < |S.columns| == |S.mixes| && |S.mixes[row]| == 3 && Within(S.mixes[row], S.mixCount)
      modifies this`CompressMatrix, this`RecoveryBlocks
      ensures Partly(S, old(Current()), Current(), i, [])
    {
      hide *;
      StaticIs();
      ghost var d := Current();
      SizedIs(S, d);
      CurrentIs();
      SetMixingColumns(row);
      SoFar(InputBlocks, d, row, column);
      if !IsCopied[row] {
        RecoveryBlocks := RecoveryBlocks[column := InputBlocks[row]];
      }
      assert RecoveryBlocks == d.blocks[column := ValueSoFar(S.input, d, row, column)];
      CurrentIs();
      PartlyStart(S, d, Current(), i);
    }

    // Adds the row to another with its column: to its bits and, if it is peeled,
    // to its block.
    method AddTo(refRow: nat, row: nat, column: nat, ghost d: PeelSystem.Diagonal, ghost i: nat, ghost seen: seq<nat>)
      requires Static() && WellFormed(S) && Sized(S, d) && SolvedBy(PeelColumns) && MarkedDeferred(PeelColumns, |S.deferredRows|)
      requires i < |S.peeledRows| && row == S.peeledRows[i] && column == S.peeledColumns[i] && column < |Refs|
      requires refRow < |S.columns| && row < |S.columns| && refRow !in seen && refRow != row
      requires Partly(S, d, Current(), i, seen)
      modifies this`CompressMatrix, this`RecoveryBlocks, this`IsCopied
      ensures Partly(S, d, Current(), i, seen + [refRow])
    {
      hide *;
      StaticIs();
      ghost var e, k := Current(), PlaceOf(S.peeledRows, refRow);
      CurrentIs();
      PartlySized(S, d, e, i, seen);
      SizedIs(S, e);
      KindOf(refRow);
      CompressMatrix := CompressMatrix[refRow := Xor(CompressMatrix[refRow], CompressMatrix[row])];
      var refColumn := PeelColumns[refRow];
      if refColumn != LIST_TERM {
        SoFar(InputBlocks, e, refRow, refColumn);
        if IsCopied[refRow] {
          RecoveryBlocks := RecoveryBlocks[refColumn := Add(RecoveryBlocks[refColumn], RecoveryBlocks[column])];
        } else {
          AddComm(RecoveryBlocks[column], InputBlocks[refRow]);
          RecoveryBlocks := RecoveryBlocks[refColumn := Add(RecoveryBlocks[column], InputBlocks[refRow])];
          IsCopied := IsCopied[refRow := true];
        }
        assert IsCopied == e.copied[refRow := true];
      }
      CurrentIs();
      PartlyRow(S, d, e, Current(), i, seen, refRow, k);
    }

    // A row is deferred, or it solves a column.
    lemma KindOf(r: nat)
      requires Static() && r < |S.columns| && SolvedBy(PeelColumns) && MarkedDeferred(PeelColumns, |S.deferredRows|)
      ensures r < |PeelColumns| && |S.peeledRows| == |S.peeledColumns|
      ensures var k := PlaceOf(S.peeledRows, r);
              && k <= |S.peeledRows| && (PeelColumns[r] == LIST_TERM <==> k == |S.peeledRows|)
              && (k < |S.peeledRows| ==> PeelColumns[r] == S.peeledColumns[k] < |Refs|)
    {
      hide References, Chain, Distinct, Ordered, Within;
      var k := PlaceOf(S.peeledRows, r);
      if k < |S.peeledRows| {
        assert S.peeledColumns[k] in S.peeledColumns;
      } else {
        assert r in S.deferredRows;
      }
    }

    // The whole stage: what is left are equations for the deferred and mixing
    // columns, equivalent to the rows received.
    method Compress()
      requires Static() && Blank(CompressMatrix) && SolvedBy(PeelColumns) && |RecoveryBlocks| == BlockCount + MixCount
      requires |IsCopied| == |Columns| && forall r :: 0 <= r < |IsCopied| ==> !IsCopied[r]
      modifies this`CompressMatrix, this`RecoveryBlocks, this`IsCopied, this`GeColMap, this`PeelColumns
      ensures WellFormed(S) && Sized(S, Current()) && Equivalent(S, Current(), |S.peeledRows|)
      ensures SolvedBy(PeelColumns)
    {
      hide *;
      StaticIs();
      SetDeferredColumns();
      SetMixingColumnsForDeferredRows();
      CurrentIs();
      MixedAll(S, Current());
      PeelDiagonal();
    }

    // The right-hand side of a deferred row's equation.
    method InitializeColumnValue(row: nat) returns (value: Gf)
      requires Static() && Sized(S, Current()) && row < |Columns|
      ensures row < |InputBlocks| && value == Add(InputBlocks[row], Part(Columns[row], Elements(S.peeledColumns), RecoveryBlocks))
    {
      hide *;
      StaticIs();
      CurrentIs();
      SizedIs(S, Current());
      var columns, input := Columns[row], InputBlocks[row];
      ghost var peeled := Elements(S.peeledColumns);
      var combo := true;
      value := ZERO;
      if row == BlockCount - 1 {
        value, combo := input, false;
      }
      var i := 0;
      PartEmpty(columns, peeled, RecoveryBlocks);
      AddZero(input);
      while i < |columns|
        invariant i <= |columns|
        invariant combo ==> Part(columns[..i], peeled, RecoveryBlocks) == ZERO
        invariant !combo ==> value == Add(input, Part(columns[..i], peeled, RecoveryBlocks))
      {
        PartSnoc(columns, i, peeled, RecoveryBlocks);
        ColumnKind(row, i);
        var column := columns[i];
        if Marks[column] == Peel {
          if !combo {
            AddAssoc(input, Part(columns[..i], peeled, RecoveryBlocks), RecoveryBlocks[column]);
            value := Add(value, RecoveryBlocks[column]);
          } else {
            AddZero(RecoveryBlocks[column]);
            value, combo := Add(input, RecoveryBlocks[column]), false;
          }
        }
        i := i + 1;
      }
      assert columns[..i] == columns;
      if combo {
        value := input;
      }
    }

    lemma ColumnKind(row: nat, i: nat)
      requires Static() && row < |Columns| && i < |Columns[row]|
      ensures Columns[row][i] < |Marks| == BlockCount && (Marks[Columns[row][i]] == Peel <==> Columns[row][i] in Elements(S.peeledColumns))
    {
      hide Chain, Share, Distinct, Ordered;
      assert Within(Columns[row], |Refs|);
    }

    // The blocks as an assignment: the mixing columns come after the others.
    ghost function Assigned(): (a: Assignment)
      requires |RecoveryBlocks| >= BlockCount
      reads this`RecoveryBlocks
    {
      Assignment(RecoveryBlocks, RecoveryBlocks[BlockCount..])
    }

    // Computes the peeled columns, in the order they were solved. If the columns
    // left satisfy the equations of the deferred rows, all rows received hold.
    method Substitute(ghost d: PeelSystem.Diagonal)
      requires Static() && SolvedBy(PeelColumns) && |RecoveryBlocks| == BlockCount + MixCount
      requires WellFormed(S) && Sized(S, d) && Equivalent(S, d, |S.peeledRows|)
      modifies this`RecoveryBlocks
      ensures |RecoveryBlocks| == |old(RecoveryBlocks)|
      ensures forall c :: 0 <= c < |RecoveryBlocks| && c !in S.peeledColumns ==> RecoveryBlocks[c] == old(RecoveryBlocks)[c]
      ensures S.mixCount == MixCount && RowsHold(S, Assigned(), true)
      ensures AllReduced(S, d, old(Assigned())) <==> RowsHold(S, Assigned(), false)
    {
      hide *;
      StaticIs();
      PeeledWalk(0);
      ghost var before := RecoveryBlocks;
      AssignedIs();
      HoldNone(S, Assigned());
      var row := PeelHead;
      ghost var i := 0;
      while row != LIST_TERM
        invariant i <= |S.peeledRows| && row == At(S.peeledRows, i) && |RecoveryBlocks| == |before|
        invariant forall c :: 0 <= c < |before| && c !in S.peeledColumns ==> RecoveryBlocks[c] == before[c]
        invariant HoldUpTo(S, Assigned(), i)
        decreases |S.peeledRows| - i
      {
        PeeledWalk(i);
        ghost var a := Assigned();
        AssignedIs();
        var column := PeelColumns[row];
        var value := SumOthers(row, column, i);
        RecoveryBlocks := RecoveryBlocks[column := value];
        AssignedIs();
        SuffixSame(a.blocks, BlockCount, column, value);
        HoldNext(S, i, a, Assigned());
        row := NextRow[row];
        i := i + 1;
      }
      PeeledWalk(i);
      HoldAll(S, Assigned());
      AssignedIs();
      ReducedSystem(S, d, Assigned());
      LeftOver(S, before, RecoveryBlocks, BlockCount);
      ReducedSame(S, d, Assignment(before, before[BlockCount..]), Assigned());
    }

    lemma AssignedIs()
      requires |RecoveryBlocks| >= BlockCount
      ensures Assigned() == Assignment(RecoveryBlocks, RecoveryBlocks[BlockCount..])
    {}

    // The row's data, mixing columns and all its columns but the one it solves.
    method SumOthers(row: nat, destColumn: nat, ghost i: nat) returns (dest: Gf)
      requires Static() && WellFormed(S) && |RecoveryBlocks| == BlockCount + MixCount && i < |S.peeledRows|
      requires row == S.peeledRows[i] && destColumn == S.peeledColumns[i]
      requires row < |S.columns| == |S.mixes| == |S.input| && |S.mixes[row]| == 3 && Within(S.mixes[row], S.mixCount)
      ensures dest == Add(Base(S, row, RecoveryBlocks[BlockCount..]), Part(S.columns[row], Every(S) - {destColumn}, RecoveryBlocks))
    {
      hide *;
      StaticIs();
      var columns, mix := Columns[row], Mixes[row];
      ghost var base, others := Base(S, row, RecoveryBlocks[BlockCount..]), Every(S) - {destColumn};
      dest := StartValue(row);
      ColumnsIn(S, i);
      PartEmpty(columns, others, RecoveryBlocks);
      AddZero(base);
      if |columns| >= 2 {
        dest := FirstTwo(columns, destColumn, dest, others);
        var j := 2;
        while j < |columns|
          invariant 2 <= j <= |columns| && dest == Add(base, Part(columns[..j], others, RecoveryBlocks))
        {
          PartSnoc(columns, j, others, RecoveryBlocks);
          var column := columns[j];
          if column != destColumn {
            AddAssoc(base, Part(columns[..j], others, RecoveryBlocks), RecoveryBlocks[column]);
            dest := Add(dest, RecoveryBlocks[column]);
          }
          j := j + 1;
        }
        assert columns[..j] == columns;
      } else {
        PartSnoc(columns, 0, others, RecoveryBlocks);
        assert columns[..1] == columns;
      }
    }

    // The data and the three mixing columns.
    method StartValue(row: nat) returns (dest: Gf)
      requires Static() && WellFormed(S) && |RecoveryBlocks| == BlockCount + MixCount
      requires row < |S.columns| == |S.mixes| == |S.input| && |S.mixes[row]| == 3 && Within(S.mixes[row], S.mixCount)
      ensures dest == Base(S, row, RecoveryBlocks[BlockCount..])
    {
      hide Add, WellFormed, References, Chain;
      var mix, input := Mixes[row], InputBlocks[row];
      var x, y, z := RecoveryBlocks[BlockCount + mix[0]], RecoveryBlocks[BlockCount + mix[1]], RecoveryBlocks[BlockCount + mix[2]];
      dest := Add(x, input);
      dest := Add(dest, Add(y, z));
      StartSum(x, y, z, input);
    }

    // The first two columns, either of which may be the one to solve.
    method FirstTwo(columns: seq<nat>, destColumn: nat, start: Gf, ghost others: set<nat>) returns (dest: Gf)
      requires |columns| >= 2 && columns[0] != columns[1] && columns[0] < |RecoveryBlocks| && columns[1] < |RecoveryBlocks|
      requires (columns[0] in others <==> columns[0] != destColumn) && (columns[1] in others <==> columns[1] != destColumn)
      ensures dest == Add(start, Part(columns[..2], others, RecoveryBlocks))
    {
      hide *;
      var column0, column1 := columns[0], columns[1];
      ghost var x, y := RecoveryBlocks[column0], RecoveryBlocks[column1];
      PartEmpty(columns, others, RecoveryBlocks);
      PartSnoc(columns, 0, others, RecoveryBlocks);
      PartSnoc(columns, 1, others, RecoveryBlocks);
      AddZero(x);
      AddZero(y);
      if column0 != destColumn {
        if column1 != destColumn {
          dest := Add(start, Add(RecoveryBlocks[column0], RecoveryBlocks[column1]));
        } else {
          dest := Add(start, RecoveryBlocks[column0]);
        }
      } else {
        dest := Add(start, RecoveryBlocks[column1]);
      }
    }

    lemma BlankBits()
      requires Static() && Blank(CompressMatrix)
      ensures BitsUpTo(S, CompressMatrix, 0, [])
    {
      hide WellFormed, References, Chain;
      BitsNone(S, CompressMatrix);
    }

  }

  lemma SizedIs(s: System, d: PeelSystem.Diagonal)
    requires Sized(s, d)
    ensures |d.matrix| == |s.columns| == |d.copied| && |d.blocks| == BlockCount(s) + s.mixCount
    ensures forall r :: 0 <= r < |d.matrix| ==> |d.matrix[r]| == Width(s)
  {}

  lemma SoFar(input: seq<Gf>, d: PeelSystem.Diagonal, r: nat, c: nat)
    requires r < |input| == |d.copied| && c < |d.blocks|
    ensures ValueSoFar(input, d, r, c) == if d.copied[r] then d.blocks[c] else input[r]
  {}

  lemma PartlySized(s: System, d: PeelSystem.Diagonal, e: PeelSystem.Diagonal, i: nat, seen: seq<nat>)
    requires WellFormed(s) && Sized(s, d) && i < |s.peeledRows| && s.peeledRows[i] < |s.columns| && Partly(s, d, e, i, seen)
    ensures Sized(s, e)
  {
    hide Sized, RowAdded, BlockAdded, Ordered, Share, Distinct;
  }

  lemma SuffixSame(x: seq<Gf>, n: nat, c: nat, v: Gf)
    requires c < n <= |x|
    ensures x[c := v][n..] == x[n..]
  {}

  lemma LeftOver(s: System, x: seq<Gf>, z: seq<Gf>, n: nat)
    requires WellFormed(s) && |x| == |z| >= n == BlockCount(s)
    requires forall c :: 0 <= c < |x| && c !in s.peeledColumns ==> z[c] == x[c]
    ensures z[n..] == x[n..] && forall c :: c in s.deferredColumns ==> Value(z, c) == Value(x, c)
  {
    hide Ordered, Distinct, Within;
    assert forall c :: n <= c < |x| ==> c !in s.peeledColumns;
  }

  lemma StartSum(x: Gf, y: Gf, z: Gf, input: Gf)
    ensures Add(Add(x, input), Add(y, z)) == Add(Add(Add(x, y), z), input)
  {
    hide Add;
    AddComm(x, input);
    AddAssoc(input, x, Add(y, z));
    AddAssoc(x, y, z);
    AddComm(input, Add(Add(x, y), z));
  }

  // The columns of a peeled row: two different ones if there are two, and one only
  // if it is the one it solves.
  lemma ColumnsIn(s: System, i: nat)
    requires WellFormed(s) && i < |s.peeledRows| && s.peeledRows[i] < |s.columns|
    ensures var columns, c := s.columns[s.peeledRows[i]], s.peeledColumns[i];
            && |columns| >= 1 && (|columns| == 1 ==> columns[0] == c) && (|columns| >= 2 ==> columns[0] != columns[1])
            && forall j :: 0 <= j < |columns| ==> columns[j] < BlockCount(s) && (columns[j] in Every(s) - {c} <==> columns[j] != c)
  {
    hide Distinct, Share;
    var columns, c := s.columns[s.peeledRows[i]], s.peeledColumns[i];
    assert Ordered(s, i) && Within(columns, BlockCount(s));
    RowDistinct(s, s.peeledRows[i]);
    TwoDistinct(columns);
    forall j | 0 <= j < |columns| ensures columns[j] in Every(s) - {c} <==> columns[j] != c {
      var e := columns[j];
      assert e in columns;
      assert e in s.peeledColumns[..i] ==> e in s.peeledColumns;
    }
  }

  lemma TwoDistinct(s: seq<nat>)
    requires Distinct(s)
    ensures |s| >= 2 ==> s[0] != s[1]
  {}

  // The numbers from n on.
  ghost function Counting(n: nat, count: nat): (s: seq<nat>)
    ensures |s| == count && forall j :: 0 <= j < count ==> s[j] == n + j
  {
    if count == 0 then [] else Counting(n, count - 1) + [n + count - 1]
  }

  lemma CountingNext(n: nat, count: nat)
    ensures Counting(n, 0) == [] && Counting(n, count + 1) == Counting(n, count) + [n + count]
  {}

  lemma DeferredWithin(s: System, i: nat)
    requires WellFormed(s) && i < |s.deferredColumns|
    ensures s.deferredColumns[i] < BlockCount(s)
  {
    hide Ordered, Distinct, Within;
    assert s.deferredColumns[i] in s.deferredColumns;
  }

  lemma RefWithin(columns: seq<seq<nat>>, refs: seq<seq<nat>>, c: nat, i: nat)
    requires References(columns, refs) && c < |refs| && i < |refs[c]|
    ensures refs[c][i] < |columns| && refs[c][i] !in refs[c][..i]
  {}

  lemma BitsSize(s: System, matrix: seq<seq<bool>>, i: nat, seen: seq<nat>)
    requires BitsUpTo(s, matrix, i, seen)
    ensures |matrix| == |s.columns| && forall r :: 0 <= r < |matrix| ==> |matrix[r]| == Width(s)
  {}

  function Zeros(rows: nat, width: nat): (m: seq<seq<bool>>)
    ensures |m| == rows && forall r :: 0 <= r < rows ==> |m[r]| == width && forall j :: 0 <= j < width ==> !m[r][j]
  {
    seq(rows, _ => seq(width, _ => false))
  }

  function ResultColumns(marks: seq<RowMarks>): (columns: seq<nat>)
    ensures |columns| == |marks| && forall r :: 0 <= r < |marks| && marks[r].Result? ==> columns[r] == marks[r].peelColumn
  {
    seq(|marks|, r requires 0 <= r < |marks| => match marks[r] case Result(c) => c case _ => 0)
  }

  lemma CompleteParts(codec: Codec, mixes: seq<seq<nat>>, input: seq<Gf>, mixCount: nat)
    requires codec.Complete() && |mixes| == |input| == |codec.Columns|
    requires forall r :: 0 <= r < |mixes| ==> |mixes[r]| == 3 && Within(mixes[r], mixCount)
    ensures var s := System(codec.Columns, mixes, input, mixCount, codec.PeeledRows, codec.PeeledColumns, codec.DeferredRows, codec.DeferredColumns);
            && WellFormed(s) && |codec.Marks| == BlockCount(s) == |codec.Refs| < LIST_TERM && References(codec.Columns, codec.Refs)
            && Chain(codec.NextRow, codec.PeelHead, codec.PeeledRows) && Chain(codec.NextRow, codec.DeferHead, codec.DeferredRows)
            && |codec.NextRow| <= LIST_TERM && Chain(codec.NextColumn, codec.DeferHeadColumns, codec.DeferredColumns)
            && |codec.NextColumn| <= LIST_TERM && codec.DeferCount == |codec.DeferredColumns|
            && |codec.UnmarkedColumns| == |codec.Columns| && |codec.PeeledRows| == |codec.PeeledColumns|
            && (forall c: nat :: c in codec.PeeledColumns <==> c < |codec.Marks| && codec.Marks[c] == Peel)
            && forall k :: 0 <= k < |codec.PeeledRows| ==>
                 codec.PeeledRows[k] < |codec.UnmarkedColumns| && codec.UnmarkedColumns[codec.PeeledRows[k]] == Result(codec.PeeledColumns[k])
  {
    hide *;
    CompleteValues(codec);
    ShareCount(codec.PeeledColumns, codec.DeferredColumns, |codec.Marks|);
    PeeledResults(codec.Marks, codec.Columns, codec.UnmarkedCounts, codec.UnmarkedColumns, codec.Pending, codec.Statuses,
                  codec.PeeledRows, codec.PeeledColumns, codec.DeferredRows);
    LinkedParts(codec.NextRow, codec.PeelHead, codec.PeelTail, codec.DeferHead, codec.PeeledRows, codec.DeferredRows);
    DefersParts(codec.Marks, codec.NextColumn, codec.DeferHeadColumns, codec.DeferredColumns);
    SystemWell(System(codec.Columns, mixes, input, mixCount, codec.PeeledRows, codec.PeeledColumns, codec.DeferredRows, codec.DeferredColumns),
               codec.Marks, codec.Refs, codec.NextColumn, codec.DeferHeadColumns);
  }

  lemma CompleteValues(codec: Codec)
    requires codec.Complete()
    ensures |codec.Refs| == |codec.Marks| < LIST_TERM && References(codec.Columns, codec.Refs)
    ensures Linked(codec.NextRow, codec.PeelHead, codec.PeelTail, codec.DeferHead, codec.PeeledRows, codec.DeferredRows)
    ensures RowsBut(codec.Marks, codec.Columns, codec.UnmarkedCounts, codec.UnmarkedColumns, codec.Pending, codec.Statuses, -1)
    ensures Placed(codec.Marks, codec.Statuses, codec.PeeledRows, codec.PeeledColumns, codec.DeferredRows)
    ensures InOrder(codec.Marks, codec.Columns, codec.PeeledRows, codec.PeeledColumns)
    ensures Defers(codec.Marks, codec.NextColumn, codec.DeferHeadColumns, codec.DeferredColumns) && codec.DeferCount == |codec.DeferredColumns|
    ensures Share(codec.PeeledRows, codec.DeferredRows, |codec.Columns|) && Share(codec.PeeledColumns, codec.DeferredColumns, |codec.Marks|)
  {
    hide References, Linked, RowsBut, Placed, InOrder, Defers, Share, AllMarked, Codec.ValidBut;
    codec.ValidIs();
    codec.Parts(-1);
  }

  lemma PeeledResults(marks: seq<Mark>, columns: seq<seq<nat>>, counts: seq<nat>, rowMarks: seq<RowMarks>, pending: seq<set<nat>>,
                      status: seq<Status>, peeledRows: seq<nat>, peeledColumns: seq<nat>, deferredRows: seq<nat>)
    requires RowsBut(marks, columns, counts, rowMarks, pending, status, -1) && Placed(marks, status, peeledRows, peeledColumns, deferredRows)
    ensures |rowMarks| == |columns| && |peeledRows| == |peeledColumns|
    ensures forall k :: 0 <= k < |peeledRows| ==> peeledRows[k] < |rowMarks| && rowMarks[peeledRows[k]] == Result(peeledColumns[k])
    ensures forall c: nat :: c in peeledColumns <==> c < |marks| && marks[c] == Peel
  {
    hide Pends, InPlay, Spent, Distinct;
    forall k | 0 <= k < |peeledRows| ensures peeledRows[k] < |rowMarks| && rowMarks[peeledRows[k]] == Result(peeledColumns[k]) {
      var r := peeledRows[k];
      assert RowOk(marks, columns[r], counts[r], rowMarks[r], pending[r], status[r]);
    }
  }

  lemma LinkedParts(next: seq<nat>, head: nat, tail: nat, deferHead: nat, peeled: seq<nat>, deferred: seq<nat>)
    requires Linked(next, head, tail, deferHead, peeled, deferred)
    ensures Chain(next, head, peeled) && Chain(next, deferHead, deferred) && |next| <= LIST_TERM
  {
    hide Chain;
  }

  lemma DefersParts(marks: seq<Mark>, next: seq<nat>, head: nat, list: seq<nat>)
    requires Defers(marks, next, head, list)
    ensures Chain(next, head, list) && |next| == |marks|
  {
    hide Chain, Distinct;
  }

  lemma SystemWell(s: System, marks: seq<Mark>, refs: seq<seq<nat>>, nextColumn: seq<nat>, head: nat)
    requires |s.columns| == |s.mixes| == |s.input| && References(s.columns, refs) && |refs| == |marks|
    requires Share(s.peeledRows, s.deferredRows, |s.columns|) && Share(s.peeledColumns, s.deferredColumns, |marks|)
    requires |s.peeledColumns| + |s.deferredColumns| == |marks|
    requires InOrder(marks, s.columns, s.peeledRows, s.peeledColumns) && Defers(marks, nextColumn, head, s.deferredColumns)
    requires forall r :: 0 <= r < |s.mixes| ==> |s.mixes[r]| == 3 && Within(s.mixes[r], s.mixCount)
    ensures WellFormed(s) && BlockCount(s) == |marks|
  {
    hide Distinct, Within, Share, Chain;
    forall k | 0 <= k < |s.peeledRows| ensures s.peeledRows[k] < |s.columns| && Ordered(s, k) {
      assert Peels.Solves(marks, s.columns[s.peeledRows[k]], s.peeledColumns[k], s.peeledColumns[..k]);
    }
  }
}
