// Wirehair's peeling solver: a row that has one unmarked column left solves it,
// which may leave other rows with one column, and so on.
module Peeling {
  import opened Collections
  import opened Weyl
  import opened Peels
  import opened PeelWeights

  class Codec {
    var Marks: seq<Mark>               // by column
    var Refs: seq<seq<nat>>            // the rows of each column
    var Weight2Refs: seq<nat>          // shares memory with the row that solves the column
    var Columns: seq<seq<nat>>         // by row: what its parameters generate
    var UnmarkedCounts: seq<nat>
    var UnmarkedColumns: seq<RowMarks>
    var NextRow: seq<nat>
    var PeelHead: nat
    var PeelTail: nat
    var DeferHead: nat
    var NextColumn: seq<nat>
    var DeferHeadColumns: nat
    var DeferCount: nat
    ghost var DeferredColumns: seq<nat>
    ghost var Pending: seq<set<nat>>
    ghost var Statuses: seq<Status>
    ghost var PeeledRows: seq<nat>
    ghost var PeeledColumns: seq<nat>
    ghost var DeferredRows: seq<nat>

    ghost predicate Graph()
      reads this`Marks, this`Refs, this`Weight2Refs, this`Columns, this`NextRow
    {
      && |Refs| == |Marks| == |Weight2Refs| < LIST_TERM && |NextRow| == |Columns|
      && References(Columns, Refs)
    }

    ghost predicate Lists()
      reads this`NextRow, this`PeelHead, this`PeelTail, this`DeferHead, this`PeeledRows, this`DeferredRows
    {
      Linked(NextRow, PeelHead, PeelTail, DeferHead, PeeledRows, DeferredRows)
    }

    // All rows keep count of their columns, but possibly one.
    ghost predicate Rows(but: int)
      reads this`Marks, this`Columns, this`UnmarkedCounts, this`UnmarkedColumns, this`Pending, this`Statuses
    {
      RowsBut(Marks, Columns, UnmarkedCounts, UnmarkedColumns, Pending, Statuses, but)
    }

    ghost predicate Solved()
      reads this`Marks, this`Columns, this`Statuses, this`PeeledRows, this`PeeledColumns, this`DeferredRows
    {
      && Placed(Marks, Statuses, PeeledRows, PeeledColumns, DeferredRows)
      && InOrder(Marks, Columns, PeeledRows, PeeledColumns)
    }

    ghost predicate ValidBut(but: int)
      reads this
    {
      Graph() && Lists() && Rows(but) && Solved()
    }

    ghost predicate Valid()
      reads this
    {
      ValidBut(-1)
    }

    // A row still in no list that is about to enter one.
    ghost predicate Leaving(r: nat)
      reads this
    {
      && ValidBut(r) && |Columns| == |Statuses| == |UnmarkedCounts| == |Pending| && r < |Columns| && Statuses[r] == Live
      && UnmarkedCounts[r] < UINT16 && Pends(Marks, Columns[r], Pending[r]) && Spent(UnmarkedCounts[r], Pending[r])
    }

    ghost function Snap(): (s: State)
      reads this`Marks, this`Weight2Refs, this`Pending, this`PeeledRows, this`PeeledColumns
    {
      State(Marks, Weight2Refs, Pending, PeeledRows, PeeledColumns)
    }

    // The unmarked columns, but possibly one, have the number of rows, but possibly
    // one, in play with two columns pending that have them pending.
    ghost predicate Weighs(but: int, except: int)
      reads this`Marks, this`Weight2Refs, this`Statuses, this`Pending
    {
      Weighed(Marks, Weight2Refs, Statuses, Pending, but, except)
    }

    lemma WeighsIs(but: int, except: int)
      ensures Weighs(but, except) <==> Weighed(Marks, Weight2Refs, Statuses, Pending, but, except)
    {}

    lemma Parts(but: int)
      requires ValidBut(but)
      ensures Graph() && |Refs| == |Marks| == |Weight2Refs| < LIST_TERM && |NextRow| == |Columns| && References(Columns, Refs)
      ensures Linked(NextRow, PeelHead, PeelTail, DeferHead, PeeledRows, DeferredRows)
      ensures |UnmarkedCounts| == |UnmarkedColumns| == |Pending| == |Statuses| == |Columns|
      ensures RowsBut(Marks, Columns, UnmarkedCounts, UnmarkedColumns, Pending, Statuses, but)
      ensures Placed(Marks, Statuses, PeeledRows, PeeledColumns, DeferredRows)
      ensures InOrder(Marks, Columns, PeeledRows, PeeledColumns)
      ensures Fits(Snap()) && forall q :: q in PeeledRows ==> q !in DeferredRows
      ensures Distinct(PeeledRows)
    {
      hide References, Linked, InOrder, RowOk;
      PlacedDisjoint(Marks, Statuses, PeeledRows, PeeledColumns, DeferredRows);
    }

    lemma ValidIs()
      requires Valid()
      ensures ValidBut(-1)
    {}

    lemma Whole(but: int)
      requires |Refs| == |Marks| == |Weight2Refs| < LIST_TERM && |NextRow| == |Columns| && References(Columns, Refs)
      requires Linked(NextRow, PeelHead, PeelTail, DeferHead, PeeledRows, DeferredRows)
      requires RowsBut(Marks, Columns, UnmarkedCounts, UnmarkedColumns, Pending, Statuses, but)
      requires Placed(Marks, Statuses, PeeledRows, PeeledColumns, DeferredRows)
      requires InOrder(Marks, Columns, PeeledRows, PeeledColumns)
      ensures ValidBut(but) && (but == -1 ==> Valid())
    {
      hide References, Linked, RowsBut, Placed, InOrder;
    }

    lemma LeavingParts(r: nat)
      requires Leaving(r)
      ensures ValidBut(r) && |Columns| == |Statuses| == |UnmarkedCounts| == |Pending| && r < |Columns| && Statuses[r] == Live
      ensures UnmarkedCounts[r] < UINT16 && Pends(Marks, Columns[r], Pending[r]) && Spent(UnmarkedCounts[r], Pending[r])
    {
      hide Pends, Spent, Codec.ValidBut;
    }

    // Links a row into the peeled list, as the row that solves the column.
    method LinkPeeled(r: nat, c: nat)
      requires Leaving(r) && r < |Columns| && Only(Marks, Columns[r], c) && Weighs(r, c)
      modifies this`Marks, this`UnmarkedColumns, this`NextRow, this`PeelHead, this`PeelTail
      modifies this`Statuses, this`PeeledRows, this`PeeledColumns
      ensures Valid() && Weighs(-1, -1) && c < |old(Marks)| && Marks == old(Marks)[c := Peel]
      ensures PeeledRows == old(PeeledRows) + [r] && PeeledColumns == old(PeeledColumns) + [c]
    {
      hide *;
      LeavingParts(r);
      Parts(r);
      OnlyTodo(Marks, Columns[r], c);
      ColumnsWithin(Columns, Refs, r);
      PlacedPeeled(Marks, Statuses, PeeledRows, PeeledColumns, DeferredRows, r, c);
      OnlySolves(Marks, Columns[r], c, Statuses, PeeledRows, PeeledColumns, DeferredRows);
      InOrderPeeled(Marks, Columns, PeeledRows, PeeledColumns, r, c);
      SpentOk(Marks, Columns[r], UnmarkedCounts[r], UnmarkedColumns[r], Pending[r], c);
      RowsWhole(Marks, Columns, UnmarkedCounts, UnmarkedColumns, Pending, Statuses, r, Result(c), Peeled(c));
      RowsEvolve(Marks, Marks[c := Peel], Columns, UnmarkedCounts, UnmarkedColumns[r := Result(c)], Pending, Statuses[r := Peeled(c)], -1);
      WeighsIs(r, c);
      WeighedPeeled(Marks, Weight2Refs, Statuses, Pending, r, c);
      LinkBack(r);
      Marks := Marks[c := Peel];
      UnmarkedColumns := UnmarkedColumns[r := Result(c)];
      Statuses := Statuses[r := Peeled(c)];
      PeeledColumns := PeeledColumns + [c];
      WeighsIs(-1, -1);
      Whole(-1);
    }

    method LinkBack(r: nat)
      requires Linked(NextRow, PeelHead, PeelTail, DeferHead, PeeledRows, DeferredRows) && Distinct(PeeledRows)
      requires r < |NextRow| && r !in PeeledRows && r !in DeferredRows && forall q :: q in PeeledRows ==> q !in DeferredRows
      modifies this`NextRow, this`PeelHead, this`PeelTail, this`PeeledRows
      ensures Linked(NextRow, PeelHead, PeelTail, DeferHead, PeeledRows, DeferredRows)
      ensures PeeledRows == old(PeeledRows) + [r] && |NextRow| == |old(NextRow)|
    {
      hide *;
      LinkedPeeled(NextRow, PeelHead, PeelTail, DeferHead, PeeledRows, DeferredRows, r);
      if PeelTail != LIST_TERM {
        NextRow := NextRow[PeelTail := r];
      } else {
        PeelHead := r;
      }
      NextRow := NextRow[r := LIST_TERM];
      PeelTail := r;
      PeeledRows := PeeledRows + [r];
    }

    // Links a row into the deferred list, at the head.
    method LinkDeferred(r: nat)
      requires Leaving(r) && r < |Columns| && NoneUnmarked(Marks, Columns[r]) && Weighs(r, -1)
      modifies this`NextRow, this`DeferHead, this`Statuses, this`DeferredRows
      ensures Valid() && Weighs(-1, -1) && DeferredRows == [r] + old(DeferredRows)
    {
      hide *;
      LeavingParts(r);
      Parts(r);
      PlacedDeferred(Marks, Statuses, PeeledRows, PeeledColumns, DeferredRows, r);
      SpentOk(Marks, Columns[r], UnmarkedCounts[r], UnmarkedColumns[r], Pending[r], 0);
      RowsWhole(Marks, Columns, UnmarkedCounts, UnmarkedColumns, Pending, Statuses, r, UnmarkedColumns[r], Deferred);
      LinkedDeferred(NextRow, PeelHead, PeelTail, DeferHead, PeeledRows, DeferredRows, r);
      WeighsIs(r, -1);
      WeighedDeferred(Marks, Weight2Refs, Statuses, Pending, r);
      NextRow, DeferHead := NextRow[r := DeferHead], r;
      Statuses := Statuses[r := Deferred];
      DeferredRows := [r] + DeferredRows;
      WeighsIs(-1, -1);
      assert UnmarkedColumns == UnmarkedColumns[r := UnmarkedColumns[r]];
      Whole(-1);
    }

    lemma SnapIs()
      ensures Snap() == State(Marks, Weight2Refs, Pending, PeeledRows, PeeledColumns)
    {}

    // Solves a column with a row, and all that follows from it.
    method SolveWithPeel(r: nat, c: nat)
      requires Leaving(r) && r < |Columns| && Only(Marks, Columns[r], c) && Weighs(r, c)
      modifies this`Marks, this`Weight2Refs, this`UnmarkedCounts, this`UnmarkedColumns, this`NextRow
      modifies this`PeelHead, this`PeelTail, this`DeferHead
      modifies this`Pending, this`Statuses, this`PeeledRows, this`PeeledColumns, this`DeferredRows
      ensures Valid() && Weighs(-1, -1) && Effect(old(Snap()), Snap(), 0, [])
      ensures old(PeeledRows) + [r] <= PeeledRows && old(PeeledColumns) + [c] <= PeeledColumns
      decreases |TodoColumns(Marks)|, 0
    {
      hide *;
      ghost var before := Snap();
      LeavingParts(r);
      Parts(r);
      OnlyTodo(Marks, Columns[r], c);
      RowsPend(Marks, Columns, UnmarkedCounts, UnmarkedColumns, Pending, Statuses, r, c);
      PendingInRefs(Marks, Columns, UnmarkedCounts, UnmarkedColumns, Pending, Statuses, Refs, r, c);
      TodoPeeled(Marks, c, Peel);
      SnapIs();
      LinkPeeled(r, c);
      SnapIs();
      ghost var linked := Snap();
      NotTodo(Marks, c);
      PeelAvalancheOnSolve(c);
      SnapIs();
      EffectGrows(linked, Snap(), c, Refs[c]);
      EffectSolve(before, linked, Snap(), r, c, 0, Refs[c]);
      EffectParts(linked, Snap(), c, Refs[c]);
      StaysMarked(linked.marks, Marks, c);
      NoteSolver(r, c);
    }

    lemma WeighsPutIn(c: nat, r: nat)
      requires Weighs(-1, -1) && c < |Weight2Refs| && !IsTodo(Marks, c)
      ensures Weighed(Marks, Weight2Refs[c := r], Statuses, Pending, -1, -1)
    {
      WeighedNoted(Marks, Weight2Refs, Statuses, Pending, c, r);
    }

    // The count of weight-2 rows is not needed any more.
    method NoteSolver(r: nat, c: nat)
      requires Valid() && c < |Weight2Refs| && !IsTodo(Marks, c) && Weighs(-1, -1)
      modifies this`Weight2Refs
      ensures Valid() && Weighs(-1, -1) && Snap() == old(Snap()).(weight2Refs := old(Weight2Refs)[c := r])
    {
      hide Codec.Lists, Codec.Rows, Codec.Solved, References, Weighed;
      WeighsPutIn(c, r);
      Weight2Refs := Weight2Refs[c := r];
    }

    // The rows of a column that was solved or deferred lose one unmarked column.
    method PeelAvalancheOnSolve(column: nat)
      requires Valid() && column < |Refs| && !IsTodo(Marks, column) && AllPend(Columns, Pending, column) && Weighs(-1, -1)
      modifies this`Marks, this`Weight2Refs, this`UnmarkedCounts, this`UnmarkedColumns, this`NextRow
      modifies this`PeelHead, this`PeelTail, this`DeferHead
      modifies this`Pending, this`Statuses, this`PeeledRows, this`PeeledColumns, this`DeferredRows
      ensures Valid() && Weighs(-1, -1) && Effect(old(Snap()), Snap(), column, Refs[column])
      decreases |TodoColumns(Marks)|, 3
    {
      hide *;
      ghost var before := Snap();
      SnapIs();
      ValidIs();
      Parts(-1);
      EffectNone(before, before, column);
      var i := 0;
      assert Refs[column][..0] == [];
      while i < |Refs[column]|
        invariant i <= |Refs[column]|
        invariant Valid() && Weighs(-1, -1) && Effect(before, Snap(), column, Refs[column][..i])
      {
        ghost var here := Snap();
        SnapIs();
        StillPending(Columns, Refs, before, here, column, i);
        EffectParts(before, here, column, Refs[column][..i]);
        TodoShrinks(before.marks, Marks);
        var r := Refs[column][i];
        Visit(r, column);
        EffectThen(before, here, Snap(), column, Refs[column][..i], [r]);
        assert Refs[column][..i + 1] == Refs[column][..i] + [r];
        i := i + 1;
      }
      assert Refs[column][..i] == Refs[column];
    }

    // One row of the avalanche of a column.
    method Visit(r: nat, column: nat)
      requires Valid() && r < |Columns| == |Pending| && column in Pending[r] && !IsTodo(Marks, column) && Weighs(-1, -1)
      modifies this`Marks, this`Weight2Refs, this`UnmarkedCounts, this`UnmarkedColumns, this`NextRow
      modifies this`PeelHead, this`PeelTail, this`DeferHead
      modifies this`Pending, this`Statuses, this`PeeledRows, this`PeeledColumns, this`DeferredRows
      ensures Valid() && Weighs(-1, -1) && Effect(old(Snap()), Snap(), column, [r])
      decreases |TodoColumns(Marks)|, 2
    {
      hide *;
      ghost var before := Snap();
      CountOff(r, column);
      ghost var counted := Snap();
      Parts(r);
      ColumnsWithin(Columns, Refs, r);
      if UnmarkedCounts[r] == 1 {
        SolveOrDefer(r, column);
        EffectThenNone(before, counted, Snap(), column, [r]);
      } else if UnmarkedCounts[r] == 2 {
        Rescan(r, column);
        EffectThenNone(before, counted, Snap(), column, [r]);
      } else {
        CountedMore(Marks, Columns[r], UnmarkedCounts[r], UnmarkedColumns[r], Pending[r], Statuses[r], column);
        RowsSame(r);
        WeighsBack(r);
      }
    }

    method CountOff(r: nat, column: nat)
      requires Valid() && r < |Columns| == |Pending| && column in Pending[r] && !IsTodo(Marks, column) && Weighs(-1, -1)
      modifies this`UnmarkedCounts, this`Pending
      ensures ValidBut(r) && Effect(old(Snap()), Snap(), column, [r])
      ensures |UnmarkedCounts| == |UnmarkedColumns| == |Pending| == |Statuses| == |Columns|
      ensures Counted(Marks, Columns[r], UnmarkedCounts[r], UnmarkedColumns[r], Pending[r], Statuses[r], column)
      ensures if UnmarkedCounts[r] == 1 then UnmarkedColumns[r].Unmarked? && Weighs(r, Other(UnmarkedColumns[r], column)) else Weighs(r, -1)
    {
      hide *;
      ValidIs();
      Parts(-1);
      SnapIs();
      EffectVisit(Snap(), column, r);
      RowsOther(Marks, Columns, UnmarkedCounts, UnmarkedColumns, Pending, Statuses, r, Less(UnmarkedCounts[r]), Pending[r] - {column});
      Visited(Marks, Columns[r], UnmarkedCounts[r], UnmarkedColumns[r], Pending[r], Statuses[r], column);
      WeighsIs(-1, -1);
      WeighedVisit(Marks, Weight2Refs, Columns[r], UnmarkedCounts[r], UnmarkedColumns[r], Statuses, Pending, r, column);
      UnmarkedCounts := UnmarkedCounts[r := Less(UnmarkedCounts[r])];
      Pending := Pending[r := Pending[r] - {column}];
      WeighsIs(r, if UnmarkedCounts[r] == 1 then Other(UnmarkedColumns[r], column) else -1);
      SnapIs();
      Whole(r);
    }

    lemma WeighsBack(r: nat)
      requires Weighs(r, -1) && r < |Columns| == |UnmarkedCounts| == |UnmarkedColumns| == |Pending| == |Statuses|
      requires RowOk(Marks, Columns[r], UnmarkedCounts[r], UnmarkedColumns[r], Pending[r], Statuses[r]) && UnmarkedCounts[r] != 2
      ensures Weighs(-1, -1)
    {
      hide RowOk, Weighed;
      if Statuses[r] == Live {
        InPlayPending(Marks, Columns[r], UnmarkedCounts[r], UnmarkedColumns[r], Pending[r], Statuses[r]);
      }
      WeighedBack(Marks, Weight2Refs, Statuses, Pending, r, -1);
    }

    // One column is pending: unless it is marked already, the row solves it.
    method SolveOrDefer(r: nat, column: nat)
      requires ValidBut(r) && r < |Columns| == |UnmarkedCounts| == |UnmarkedColumns| == |Pending| == |Statuses|
      requires UnmarkedCounts[r] == 1 && Within(Columns[r], |Marks|)
      requires UnmarkedColumns[r].Unmarked? && Weighs(r, Other(UnmarkedColumns[r], column))
      requires Counted(Marks, Columns[r], UnmarkedCounts[r], UnmarkedColumns[r], Pending[r], Statuses[r], column)
      modifies this`Marks, this`Weight2Refs, this`UnmarkedCounts, this`UnmarkedColumns, this`NextRow
      modifies this`PeelHead, this`PeelTail, this`DeferHead
      modifies this`Pending, this`Statuses, this`PeeledRows, this`PeeledColumns, this`DeferredRows
      ensures Valid() && Weighs(-1, -1) && Effect(old(Snap()), Snap(), column, [])
      decreases |TodoColumns(Marks)|, 1
    {
      hide *;
      Parts(r);
      CountedOne(Marks, Columns[r], UnmarkedColumns[r], Pending[r], Statuses[r], column);
      LeavingWhole(r);
      var newColumn := UnmarkedColumns[r].first;
      if newColumn == column {
        newColumn := UnmarkedColumns[r].second;
      }
      OtherIs(UnmarkedColumns[r], column);
      TodoIs(Marks, Columns[r], newColumn);
      EffectSame(Snap(), column);
      if Marks[newColumn] == Todo {
        ghost var before := Snap();
        SolveWithPeel(r, newColumn);
        EffectAny(before, Snap(), 0, column);
      } else {
        WeighsIs(r, newColumn);
        WeighedMarked(Marks, Weight2Refs, Statuses, Pending, r, newColumn);
        WeighsIs(r, -1);
        LinkDeferred(r);
      }
    }

    // Two columns are pending: find out which. Columns that were marked in the
    // meantime leave fewer, and the row is done.
    method Rescan(r: nat, column: nat)
      requires ValidBut(r) && r < |Columns| == |UnmarkedCounts| == |UnmarkedColumns| == |Pending| == |Statuses|
      requires UnmarkedCounts[r] == 2 && Within(Columns[r], |Marks|) && Distinct(Columns[r]) && Weighs(r, -1)
      requires Counted(Marks, Columns[r], UnmarkedCounts[r], UnmarkedColumns[r], Pending[r], Statuses[r], column)
      modifies this`Marks, this`Weight2Refs, this`UnmarkedCounts, this`UnmarkedColumns, this`NextRow
      modifies this`PeelHead, this`PeelTail, this`DeferHead
      modifies this`Pending, this`Statuses, this`PeeledRows, this`PeeledColumns, this`DeferredRows
      ensures Valid() && Weighs(-1, -1) && Effect(old(Snap()), Snap(), column, [])
      decreases |TodoColumns(Marks)|, 1
    {
      hide *;
      Parts(r);
      CountedTwo(Marks, Columns[r], UnmarkedColumns[r], Pending[r], Statuses[r], column);
      ghost var before := Snap();
      WeighsIs(r, -1);
      ghost var weights := Weight2Refs;
      var stored := StoreUnmarked(r);
      ghost var scanned := Snap();
      EffectAny(before, scanned, 0, column);
      WeighsStored(r, weights, stored);
      if |stored| <= 1 {
        ClearCount(r);
        if |stored| == 1 {
          SolveWithPeel(r, stored[0]);
          EffectAny(scanned, Snap(), 0, column);
          EffectThenNone(before, scanned, Snap(), column, []);
        } else {
          LinkDeferred(r);
        }
      } else {
        InPlayPending(Marks, Columns[r], 2, Unmarked(stored[0], stored[1]), Pending[r], Statuses[r]);
        WeighedPair(Marks, weights, Statuses, Pending, r, stored);
        RememberUnmarked(r, stored);
        WeighsIs(-1, -1);
      }
    }

    // A row that is to leave with one or no unmarked column has counted for it.
    lemma WeighsStored(r: nat, weight2Refs: seq<nat>, stored: seq<nat>)
      requires Weighed(Marks, weight2Refs, Statuses, Pending, r, -1) && Weight2Refs == Bumped(weight2Refs, stored)
      ensures |stored| == 1 ==> Weighs(r, stored[0])
      ensures |stored| == 0 ==> Weighs(r, -1)
    {
      hide Weighed, Bumped;
      if |stored| == 1 {
        assert stored == [stored[0]];
        WeighedOnce(Marks, weight2Refs, Statuses, Pending, r, stored[0]);
      } else if |stored| == 0 {
        BumpedNone(weight2Refs);
      }
    }

    // Collects the unmarked columns of the row, counting weight-2 references on the way.
    method StoreUnmarked(r: nat) returns (stored: seq<nat>)
      requires ValidBut(r) && r < |Columns| && Within(Columns[r], |Marks|) && Distinct(Columns[r])
      modifies this`Weight2Refs
      ensures Weight2Refs == Bumped(old(Weight2Refs), stored)
      ensures ValidBut(r) && stored == Unsolved(Marks, Columns[r]) && Effect(old(Snap()), Snap(), 0, [])
    {
      hide *;
      Parts(r);
      ghost var before := Snap();
      SnapIs();
      stored := [];
      var i := 0;
      var columns, marks := Columns[r], Marks;
      UnsolvedNone(marks, columns);
      BumpedNone(Weight2Refs);
      while i < |columns|
        invariant i <= |columns| && |Weight2Refs| == |marks|
        invariant Within(columns[..i], |marks|) && stored == Unsolved(marks, columns[..i])
        invariant Weight2Refs == Bumped(before.weight2Refs, stored)
        invariant forall d :: 0 <= d < |marks| && marks[d] != Todo ==> Weight2Refs[d] == before.weight2Refs[d]
      {
        UnsolvedSnoc(marks, columns, i);
        var column := columns[i];
        if marks[column] == Todo {
          UnsolvedNew(marks, columns, i);
          BumpedSnoc(before.weight2Refs, stored, column);
          stored := stored + [column];
          Weight2Refs := Weight2Refs[column := Weight2Refs[column] + 1];
        }
        i := i + 1;
      }
      assert columns[..i] == columns;
      SnapIs();
      EffectNone(before, Snap(), 0);
      Whole(r);
    }

    method ClearCount(r: nat)
      requires ValidBut(r) && r < |Columns| == |UnmarkedCounts| == |Pending| == |Statuses|
      requires Statuses[r] == Live && 0 < UINT16 && Spent(0, Pending[r]) && Pends(Marks, Columns[r], Pending[r])
      modifies this`UnmarkedCounts
      ensures Leaving(r)
    {
      hide *;
      Parts(r);
      RowsCleared(Marks, Columns, UnmarkedCounts, UnmarkedColumns, Pending, Statuses, r, 0);
      UnmarkedCounts := UnmarkedCounts[r := 0];
      Whole(r);
      LeavingWhole(r);
    }

    method RememberUnmarked(r: nat, stored: seq<nat>)
      requires ValidBut(r) && r < |Columns| == |UnmarkedCounts| == |UnmarkedColumns| == |Pending| == |Statuses| && |stored| == 2
      requires RowOk(Marks, Columns[r], UnmarkedCounts[r], Unmarked(stored[0], stored[1]), Pending[r], Statuses[r])
      modifies this`UnmarkedColumns
      ensures Valid()
    {
      hide *;
      Parts(r);
      RowsWhole(Marks, Columns, UnmarkedCounts, UnmarkedColumns, Pending, Statuses, r, Unmarked(stored[0], stored[1]), Statuses[r]);
      UnmarkedColumns := UnmarkedColumns[r := Unmarked(stored[0], stored[1])];
      assert Statuses == Statuses[r := Statuses[r]];
      Whole(-1);
    }

    lemma RowsSame(r: nat)
      requires ValidBut(r) && r < |Columns| == |UnmarkedCounts| == |UnmarkedColumns| == |Pending| == |Statuses|
      requires RowOk(Marks, Columns[r], UnmarkedCounts[r], UnmarkedColumns[r], Pending[r], Statuses[r])
      ensures Valid()
    {
      hide *;
      Parts(r);
      RowsWhole(Marks, Columns, UnmarkedCounts, UnmarkedColumns, Pending, Statuses, r, UnmarkedColumns[r], Statuses[r]);
      assert Statuses == Statuses[r := Statuses[r]] && UnmarkedColumns == UnmarkedColumns[r := UnmarkedColumns[r]];
      Whole(-1);
    }

    lemma LeavingWhole(r: nat)
      requires ValidBut(r) && |Columns| == |Statuses| == |UnmarkedCounts| == |Pending| && r < |Columns| && Statuses[r] == Live
      requires UnmarkedCounts[r] < UINT16 && Pends(Marks, Columns[r], Pending[r]) && Spent(UnmarkedCounts[r], Pending[r])
      ensures Leaving(r)
    {
      hide Pends, Spent, Codec.ValidBut;
    }

    // ---- rows coming in ----

    // Between avalanches.
    ghost predicate Settled()
      reads this
    {
      Valid() && Quiet(Snap()) && Weighs(-1, -1)
    }

    // A row has no unmarked columns, or at least two: in this case, and no other, it
    // is in neither list.
    lemma NoRowCanSolve(r: nat)
      requires Settled() && r < |Columns|
      ensures var unmarked := UnmarkedOf(Marks, Columns[r]);
              if r in PeeledRows || r in DeferredRows then unmarked == {} else |unmarked| >= 2
    {
      hide *;
      SettledParts();
      ValidIs();
      Parts(-1);
      SnapIs();
      QuietIs(Snap());
      LiveRows(Marks, Statuses, PeeledRows, PeeledColumns, DeferredRows, r);
      RowsOther(Marks, Columns, UnmarkedCounts, UnmarkedColumns, Pending, Statuses, r, 0, {});
      SettledRow(Marks, Columns[r], UnmarkedCounts[r], UnmarkedColumns[r], Pending[r], Statuses[r]);
      if r in PeeledRows {
        var k :| 0 <= k < |PeeledRows| && PeeledRows[k] == r;
        PeeledRow(Marks, Columns, Statuses, PeeledRows, PeeledColumns, DeferredRows, k);
      }
    }

    constructor (blockCount: nat)
      requires blockCount < LIST_TERM
      ensures Settled() && Columns == [] && |Marks| == |NextColumn| == blockCount && forall c :: 0 <= c < blockCount ==> Marks[c] == Todo
    {
      Marks, Refs, Weight2Refs := seq(blockCount, _ => Todo), seq(blockCount, _ => []), seq(blockCount, _ => 0);
      Columns, UnmarkedCounts, UnmarkedColumns, NextRow := [], [], [], [];
      PeelHead, PeelTail, DeferHead := LIST_TERM, LIST_TERM, LIST_TERM;
      NextColumn, DeferHeadColumns, DeferCount, DeferredColumns := seq(blockCount, _ => 0), LIST_TERM, 0, [];
      Pending, Statuses, PeeledRows, PeeledColumns, DeferredRows := [], [], [], [], [];
    }

    // Notes the row in its columns and finds the unmarked ones, of which it keeps
    // two. If a column has no room for it, nothing is noted.
    method ReferenceRow(columns: seq<nat>, row: nat) returns (ok: bool, unmarkedCount: nat, unmarked: seq<nat>)
      requires |Refs| == |Marks| && Distinct(columns) && Within(columns, |Marks|)
      modifies this`Refs
      ensures ok <==> Room(old(Refs), columns, |columns|)
      ensures Refs == if ok then Referenced(old(Refs), columns, row) else old(Refs)
      ensures ok ==> Keeps(unmarkedCount, unmarked, Unsolved(Marks, columns))
    {
      hide *;
      KeepsNone();
      RoomNone(Refs, columns);
      unmarkedCount, unmarked := 0, [0, 0];
      ghost var refs := Refs;
      ReferencedNone(refs, columns, row, 0);
      UnsolvedNone(Marks, columns);
      var i := 0;
      while i < |columns|
        invariant i <= |columns| && Refs == Referenced(refs, columns[0..i], row)
        invariant Room(refs, columns, i) && |Refs| == |refs|
        invariant Within(columns[..i], |Marks|) && Keeps(unmarkedCount, unmarked, Unsolved(Marks, columns[..i]))
      {
        ReferencedOne(refs, columns, row, 0, i);
        UnsolvedSnoc(Marks, columns, i);
        RoomNext(refs, columns, i);
        KeepsNext(unmarkedCount, unmarked, Unsolved(Marks, columns[..i]), columns[i]);
        var column := columns[i];
        if |Refs[column]| >= REF_LIST_MAX {
          FixPeelFailure(columns, column, i, refs, row);
          ok := false;
          return;
        }
        Refs := Refs[column := Refs[column] + [row]];
        if Marks[column] == Todo {
          unmarked := unmarked[unmarkedCount % 2 := column];
          unmarkedCount := unmarkedCount + 1;
        }
        i := i + 1;
      }
      assert columns[..i] == columns && columns[0..i] == columns;
      ok := true;
    }

    // A new row: it is noted in its columns and, if one of them is unmarked,
    // solves it at once. False, and nothing changed, if a column has no room.
    method OpportunisticPeeling(columns: seq<nat>) returns (ok: bool)
      requires Settled() && NoneDeferred(Marks)
      requires Distinct(columns) && Within(columns, |Marks|) && |Columns| < LIST_TERM
      modifies this`Marks, this`Refs, this`Weight2Refs, this`Columns, this`UnmarkedCounts, this`UnmarkedColumns, this`NextRow
      modifies this`PeelHead, this`PeelTail, this`DeferHead
      modifies this`Pending, this`Statuses, this`PeeledRows, this`PeeledColumns, this`DeferredRows
      ensures Settled() && NoneDeferred(Marks)
      ensures ok <==> Room(old(Refs), columns, |columns|)
      ensures ok ==> Columns == old(Columns) + [columns] && Refs == Referenced(old(Refs), columns, |old(Columns)|)
      ensures !ok ==> Columns == old(Columns) && Refs == old(Refs) && Snap() == old(Snap())
      ensures Evolved(old(Marks), Marks) && old(PeeledColumns) <= PeeledColumns && old(PeeledRows) <= PeeledRows
    {
      hide *;
      SettledParts();
      ValidIs();
      Parts(-1);
      SnapIs();
      EvolvedSame(Marks);
      ghost var refs, marks := Refs, Marks;
      var unmarkedCount, unmarked;
      ok, unmarkedCount, unmarked := ReferenceRow(columns, |Columns|);
      if !ok {
        Whole(-1);
        SettledWhole();
        return;
      }
      KeepsTwo(unmarkedCount, unmarked, Unsolved(Marks, columns));
      var row := AddRow(columns, unmarkedCount, refs);
      SnapIs();
      ghost var added := Snap();
      EnterRow(row, unmarkedCount, unmarked);
      QuietEffect(added, Snap(), 0, []);
      EffectParts(added, Snap(), 0, []);
      EffectGrows(added, Snap(), 0, []);
      SnapIs();
      EvolvedNoneDeferred(marks, Marks);
      SettledWhole();
    }

    // What the number of its unmarked columns makes of a new row.
    method EnterRow(row: nat, unmarkedCount: nat, unmarked: seq<nat>)
      requires ValidBut(row) && row < |Columns| == |UnmarkedCounts| == |UnmarkedColumns| == |Pending| == |Statuses|
      requires Statuses[row] == Live && UnmarkedCounts[row] == unmarkedCount && Distinct(Columns[row]) && Within(Columns[row], |Marks|)
      requires Weighs(row, -1)
      requires Pending[row] == UnmarkedSet(Unsolved(Marks, Columns[row])) && Keeps(unmarkedCount, unmarked, Unsolved(Marks, Columns[row]))
      modifies this`Marks, this`Weight2Refs, this`UnmarkedCounts, this`UnmarkedColumns, this`NextRow
      modifies this`PeelHead, this`PeelTail, this`DeferHead
      modifies this`Pending, this`Statuses, this`PeeledRows, this`PeeledColumns, this`DeferredRows
      ensures Valid() && Weighs(-1, -1) && Effect(old(Snap()), Snap(), 0, [])
    {
      hide *;
      Parts(row);
      EffectSame(Snap(), 0);
      KeepsTwo(unmarkedCount, unmarked, Unsolved(Marks, Columns[row]));
      if unmarkedCount <= 1 {
        NewRow(Marks, Columns[row], Unset);
        LeavingWhole(row);
        if unmarkedCount == 0 {
          LinkDeferred(row);
        } else {
          WeighsAny(row, unmarked[0]);
          SolveWithPeel(row, unmarked[0]);
        }
      } else if unmarkedCount == 2 {
        ghost var s := Snap();
        SnapIs();
        WeighsIs(row, -1);
        UnmarkedWithin(Marks, Columns[row]);
        NewRow(Marks, Columns[row], Unmarked(unmarked[0], unmarked[1]));
        RememberUnmarked(row, unmarked);
        CountWeight2(unmarked[0]);
        ghost var t := Snap();
        CountWeight2(unmarked[1]);
        EffectThenNone(s, t, Snap(), 0, []);
        UnsolvedCount(Marks, Columns[row]);
        BumpedTwice(s.weight2Refs, unmarked[0], unmarked[1]);
        assert unmarked == [unmarked[0], unmarked[1]];
        WeighedPair(Marks, s.weight2Refs, Statuses, Pending, row, unmarked);
        WeighsIs(-1, -1);
      } else {
        NewRow(Marks, Columns[row], UnmarkedColumns[row]);
        RowsSame(row);
        WeighsBack(row);
      }
    }

    lemma WeighsAny(but: int, except: int)
      requires Weighs(but, -1)
      ensures Weighs(but, except)
    {}

    // The row, unless a list is still to take it.
    method AddRow(columns: seq<nat>, unmarkedCount: nat, ghost refs: seq<seq<nat>>) returns (row: nat)
      requires |refs| == |Marks| == |Weight2Refs| < LIST_TERM && |NextRow| == |Columns| && References(Columns, refs)
      requires Refs == Referenced(refs, columns, |Columns|)
      requires Linked(NextRow, PeelHead, PeelTail, DeferHead, PeeledRows, DeferredRows) && |Columns| < LIST_TERM
      requires |UnmarkedCounts| == |UnmarkedColumns| == |Pending| == |Statuses| == |Columns|
      requires RowsBut(Marks, Columns, UnmarkedCounts, UnmarkedColumns, Pending, Statuses, -1)
      requires Placed(Marks, Statuses, PeeledRows, PeeledColumns, DeferredRows)
      requires InOrder(Marks, Columns, PeeledRows, PeeledColumns) && Quiet(Snap()) && Weighs(-1, -1)
      requires Distinct(columns) && Within(columns, |Marks|)
      modifies this`Columns, this`UnmarkedCounts, this`UnmarkedColumns, this`NextRow, this`Pending, this`Statuses
      ensures ValidBut(row) && row == |old(Columns)| && Columns == old(Columns) + [columns] && Quiet(Snap()) && Weighs(row, -1)
      ensures |UnmarkedCounts| == |UnmarkedColumns| == |Pending| == |Statuses| == |Columns|
      ensures Statuses[row] == Live && UnmarkedCounts[row] == unmarkedCount
      ensures Pending[row] == UnmarkedSet(Unsolved(Marks, columns))
    {
      hide *;
      row := |Columns|;
      ghost var pending := UnmarkedSet(Unsolved(Marks, columns));
      ReferencesAdded(Columns, refs, columns);
      LinkedLonger(NextRow, PeelHead, PeelTail, DeferHead, PeeledRows, DeferredRows, 0);
      RowsAdded(Marks, Columns, UnmarkedCounts, UnmarkedColumns, Pending, Statuses, columns, unmarkedCount, Unset, pending);
      PlacedLonger(Marks, Statuses, PeeledRows, PeeledColumns, DeferredRows);
      InOrderLonger(Marks, Columns, PeeledRows, PeeledColumns, columns);
      SnapIs();
      UnmarkedTodo(Marks, columns);
      QuietRow(Snap(), pending);
      WeighsIs(-1, -1);
      WeighedLonger(Marks, Weight2Refs, Statuses, Pending, pending);
      AppendRow(columns, unmarkedCount, pending);
      WeighsIs(row, -1);
      SnapIs();
      Whole(row);
    }

    method AppendRow(columns: seq<nat>, unmarkedCount: nat, ghost pending: set<nat>)
      modifies this`Columns, this`UnmarkedCounts, this`UnmarkedColumns, this`NextRow, this`Pending, this`Statuses
      ensures Columns == old(Columns) + [columns] && NextRow == old(NextRow) + [0] && UnmarkedCounts == old(UnmarkedCounts) + [unmarkedCount]
      ensures UnmarkedColumns == old(UnmarkedColumns) + [Unset] && Pending == old(Pending) + [pending] && Statuses == old(Statuses) + [Live]
    {
      Columns, NextRow := Columns + [columns], NextRow + [0];
      UnmarkedCounts, UnmarkedColumns := UnmarkedCounts + [unmarkedCount], UnmarkedColumns + [Unset];
      Pending, Statuses := Pending + [pending], Statuses + [Live];
    }

    method CountWeight2(c: nat)
      requires Valid() && c < |Marks| == |Weight2Refs| && Marks[c] == Todo
      modifies this`Weight2Refs
      ensures Weight2Refs == old(Weight2Refs)[c := old(Weight2Refs)[c] + 1]
      ensures Valid() && Effect(old(Snap()), Snap(), 0, [])
    {
      hide *;
      ValidIs();
      Parts(-1);
      SnapIs();
      ghost var before := Snap();
      Weight2Refs := Weight2Refs[c := Weight2Refs[c] + 1];
      SnapIs();
      EffectNone(before, Snap(), 0);
      Whole(-1);
    }

    lemma SettledParts()
      requires Settled()
      ensures Valid() && Quiet(Snap()) && Weighs(-1, -1)
    {
      hide Quiet, Codec.Valid, Codec.Weighs;
    }

    lemma SettledWhole()
      requires Valid() && Quiet(Snap()) && Weighs(-1, -1)
      ensures Settled()
    {
      hide Quiet, Codec.Valid, Codec.Weighs;
    }

    // The rows in neither list that have two unmarked columns, one of them c.
    ghost function TwoRows(c: nat): set<nat>
      reads this`Marks, this`Columns, this`PeeledRows, this`DeferredRows
    {
      TwoUnmarked(Marks, Columns, PeeledRows, DeferredRows, c)
    }

    // The weight-2 number of an unmarked column is the number of these.
    lemma WeightIsTwoRows(c: nat)
      requires Settled() && c < |Marks| && Marks[c] == Todo
      ensures c < |Weight2Refs| && Weight2Refs[c] == |TwoRows(c)|
    {
      hide *;
      SettledParts();
      ValidIs();
      Parts(-1);
      SnapIs();
      QuietIs(Snap());
      WeighsIs(-1, -1);
      WeighedAt(Marks, Weight2Refs, Statuses, Pending, c);
      TwosUnmarked(Marks, Columns, UnmarkedCounts, UnmarkedColumns, Pending, Statuses, PeeledRows, PeeledColumns, DeferredRows, c);
      TwoRowsIs(c);
    }

    lemma TwoRowsIs(c: nat)
      ensures TwoRows(c) == TwoUnmarked(Marks, Columns, PeeledRows, DeferredRows, c)
    {}

    // The column to put off: no unmarked one has more of these rows or, with as
    // many of these, more rows, and it is the last such column.
    ghost predicate Heaviest(best: nat)
      reads this`Marks, this`Refs, this`Columns, this`PeeledRows, this`DeferredRows
    {
      && |Refs| == |Marks| && best < |Marks| && Marks[best] == Todo
      && forall c: nat :: c < |Marks| && Marks[c] == Todo ==>
           if c <= best then Heavier(|TwoRows(best)|, |Refs[best]|, |TwoRows(c)|, |Refs[c]|)
           else !Heavier(|TwoRows(c)|, |Refs[c]|, |TwoRows(best)|, |Refs[best]|)
    }

    lemma BestIsHeaviest(best: nat)
      requires Settled() && |Marks| == |Weight2Refs| == |Refs| && best != LIST_TERM && Best(Marks, Weight2Refs, Refs, |Marks|, best)
      ensures Heaviest(best)
    {
      hide Codec.TwoRows, Codec.Settled, Heavier;
      WeightIsTwoRows(best);
      forall c: nat | c < |Marks| && Marks[c] == Todo ensures |TwoRows(c)| == Weight2Refs[c] {
        WeightIsTwoRows(c);
      }
    }

    // The unmarked column with the most weight-2 rows and, among these, the most rows.
    method PickColumn() returns (bestColumn: nat)
      requires Settled()
      ensures if bestColumn == LIST_TERM then AllMarked(Marks) else Heaviest(bestColumn)
    {
      hide *;
      SettledParts();
      ValidIs();
      Parts(-1);
      BestNone(Marks, Weight2Refs, Refs);
      bestColumn := LIST_TERM;
      var bestW2Refs, bestRowCount := 0, 0;
      var column := 0;
      while column < |Marks|
        invariant column <= |Marks| && Best(Marks, Weight2Refs, Refs, column, bestColumn)
        invariant bestColumn == LIST_TERM || bestColumn < column
        invariant bestColumn != LIST_TERM ==> bestW2Refs == Weight2Refs[bestColumn] && bestRowCount == |Refs[bestColumn]|
        invariant bestColumn == LIST_TERM ==> bestW2Refs == bestRowCount == 0
      {
        BestNext(Marks, Weight2Refs, Refs, column, bestColumn);
        if bestColumn != LIST_TERM {
          HeavierIs(Weight2Refs[column], |Refs[column]|, bestW2Refs, bestRowCount);
        }
        if Marks[column] == Todo {
          var w2Refs := Weight2Refs[column];
          if w2Refs >= bestW2Refs {
            var rowCount := |Refs[column]|;
            if w2Refs > bestW2Refs || rowCount >= bestRowCount {
              bestColumn, bestW2Refs, bestRowCount := column, w2Refs, rowCount;
            }
          }
        }
        column := column + 1;
      }
      BestIs(Marks, Weight2Refs, Refs, bestColumn);
      if bestColumn != LIST_TERM {
        BestIsHeaviest(bestColumn);
      }
    }

    // Peeling is complete.
    ghost predicate Complete()
      reads this
    {
      && Valid() && AllMarked(Marks) && Defers(Marks, NextColumn, DeferHeadColumns, DeferredColumns) && DeferCount == |DeferredColumns|
      && Share(PeeledRows, DeferredRows, |Columns|) && Share(PeeledColumns, DeferredColumns, |Marks|)
    }

    // Puts columns off until all are marked.
    method GreedyPeeling()
      requires Settled() && NoneDeferred(Marks) && |NextColumn| == |Marks|
      modifies this`Marks, this`Weight2Refs, this`UnmarkedCounts, this`UnmarkedColumns, this`NextRow
      modifies this`PeelHead, this`PeelTail, this`DeferHead
      modifies this`Pending, this`Statuses, this`PeeledRows, this`PeeledColumns, this`DeferredRows
      modifies this`NextColumn, this`DeferHeadColumns, this`DeferCount, this`DeferredColumns
      ensures Complete() && Quiet(Snap()) && InOrder(Marks, Columns, PeeledRows, PeeledColumns)
      ensures |Columns| == |Marks| ==> |DeferredRows| == DeferCount
      ensures old(PeeledRows) <= PeeledRows && old(PeeledColumns) <= PeeledColumns
    {
      hide *;
      SettledParts();
      ValidIs();
      Parts(-1);
      DeferHeadColumns, DeferCount, DeferredColumns := LIST_TERM, 0, [];
      Whole(-1);
      SettledWhole();
      DefersNone(Marks, NextColumn);
      while true
        invariant Settled() && Defers(Marks, NextColumn, DeferHeadColumns, DeferredColumns) && DeferCount == |DeferredColumns|
        invariant old(PeeledRows) <= PeeledRows && old(PeeledColumns) <= PeeledColumns
        decreases |TodoColumns(Marks)|
      {
        SettledParts();
        ValidIs();
        Parts(-1);
        var bestColumn := PickColumn();
        HeaviestParts(bestColumn);
        if bestColumn == LIST_TERM {
          QuietIs(Snap());
          break;
        }
        TodoPeeled(Marks, bestColumn, Defer);
        PutOff(bestColumn);
        SnapIs();
        ghost var before := Snap();
        PeelAvalancheOnSolve(bestColumn);
        QuietAfter(before, Snap(), bestColumn, Refs[bestColumn]);
        EffectParts(before, Snap(), bestColumn, Refs[bestColumn]);
        EffectGrows(before, Snap(), bestColumn, Refs[bestColumn]);
        SnapIs();
        TodoShrinks(before.marks, Marks);
        DefersEvolve(before.marks, Marks, NextColumn, DeferHeadColumns, DeferredColumns);
        SettledWhole();
      }
      SnapIs();
      NoneLive(Marks, Columns, UnmarkedCounts, UnmarkedColumns, Pending, Statuses);
      Shares(Marks, Statuses, PeeledRows, PeeledColumns, DeferredRows, NextColumn, DeferHeadColumns, DeferredColumns);
      ShareCount(PeeledRows, DeferredRows, |Columns|);
      ShareCount(PeeledColumns, DeferredColumns, |Marks|);
      PlacedSizes(Marks, Statuses, PeeledRows, PeeledColumns, DeferredRows);
      CompleteWhole();
    }

    lemma CompleteWhole()
      requires Valid() && AllMarked(Marks) && Defers(Marks, NextColumn, DeferHeadColumns, DeferredColumns) && DeferCount == |DeferredColumns|
      requires Share(PeeledRows, DeferredRows, |Columns|) && Share(PeeledColumns, DeferredColumns, |Marks|)
      ensures Complete()
    {
      hide Codec.Valid, AllMarked, Defers, Share;
    }

    lemma HeaviestParts(c: nat)
      ensures Heaviest(c) ==> c < |Marks| && Marks[c] == Todo && IsTodo(Marks, c)
    {
      hide Codec.TwoRows, Heavier;
    }

    // Puts the heaviest column off, at the head of the list.
    method PutOff(c: nat)
      requires Heaviest(c) && Settled() && IsTodo(Marks, c) && c < |Marks| && Defers(Marks, NextColumn, DeferHeadColumns, DeferredColumns)
      modifies this`Marks, this`NextColumn, this`DeferHeadColumns, this`DeferCount, this`DeferredColumns
      ensures Valid() && Weighs(-1, -1) && Marks == old(Marks)[c := Defer] && !IsTodo(Marks, c) && AllPend(Columns, Pending, c)
      ensures Defers(Marks, NextColumn, DeferHeadColumns, DeferredColumns)
      ensures DeferCount == old(DeferCount) + 1 && |DeferredColumns| == |old(DeferredColumns)| + 1
      ensures c < |Refs| && QuietBut(Snap(), c, Refs[c])
    {
      hide *;
      SettledParts();
      ValidIs();
      Parts(-1);
      SnapIs();
      TodoMark(Marks, c);
      RowsPend(Marks, Columns, UnmarkedCounts, UnmarkedColumns, Pending, Statuses, -1, c);
      PendingInRefs(Marks, Columns, UnmarkedCounts, UnmarkedColumns, Pending, Statuses, Refs, -1, c);
      QuietDeferred(Snap(), c, Refs[c]);
      RowsEvolve(Marks, Marks[c := Defer], Columns, UnmarkedCounts, UnmarkedColumns, Pending, Statuses, -1);
      PlacedColumnDeferred(Marks, Statuses, PeeledRows, PeeledColumns, DeferredRows, c);
      InOrderEvolves(Marks, Columns, PeeledRows, PeeledColumns, c);
      DefersFront(Marks, NextColumn, DeferHeadColumns, DeferredColumns, c);
      DefersSize(Marks, NextColumn, DeferHeadColumns, DeferredColumns);
      WeighsIs(-1, -1);
      WeighedPutOff(Marks, Weight2Refs, Statuses, Pending, c);
      Marks := Marks[c := Defer];
      WeighsIs(-1, -1);
      NotTodo(Marks, c);
      DeferCount := DeferCount + 1;
      NextColumn, DeferHeadColumns := NextColumn[c := DeferHeadColumns], c;
      DeferredColumns := [c] + DeferredColumns;
      SnapIs();
      Whole(-1);
    }

    // Takes the row's references back, up to the column that had no room.
    method FixPeelFailure(columns: seq<nat>, failColumn: nat, ghost i: nat, ghost refs: seq<seq<nat>>, ghost row: nat)
      requires Distinct(columns) && Within(columns, |refs|) && i < |columns| && columns[i] == failColumn
      requires Refs == Referenced(refs, columns[0..i], row)
      modifies this`Refs
      ensures Refs == refs
    {
      hide Distinct, Within, Referenced;
      var j := 0;
      while j < |columns|
        invariant j <= i && Refs == Referenced(refs, columns[j..i], row)
        invariant |Refs| == |refs|
      {
        var column := columns[j];
        if column == failColumn {
          SamePlace(columns, i, j);
          break;
        }
        ReferencedFirst(refs, columns, row, j, i);
        Refs := Refs[column := Refs[column][..|Refs[column]| - 1]];
        j := j + 1;
      }
      ReferencedNone(refs, columns, row, i);
    }
  }

  lemma UnmarkedWithin(marks: seq<Mark>, columns: seq<nat>)
    requires Within(columns, |marks|)
    ensures forall i :: 0 <= i < |Unsolved(marks, columns)| ==>
              Unsolved(marks, columns)[i] < |marks| && marks[Unsolved(marks, columns)[i]] == Todo
  {
    assert forall i :: 0 <= i < |Unsolved(marks, columns)| ==> Unsolved(marks, columns)[i] in Unsolved(marks, columns);
  }

  lemma StaysMarked(marks: seq<Mark>, later: seq<Mark>, c: nat)
    requires Evolved(marks, later) && !IsTodo(marks, c)
    ensures !IsTodo(later, c)
  {}

  lemma UnsolvedNew(marks: seq<Mark>, columns: seq<nat>, i: nat)
    requires Distinct(columns) && Within(columns, |marks|) && i < |columns| && Within(columns[..i], |marks|)
    ensures columns[i] !in Unsolved(marks, columns[..i])
  {}

  lemma SamePlace(s: seq<nat>, i: nat, j: nat)
    requires Distinct(s) && i < |s| && j < |s| && s[i] == s[j]
    ensures i == j
  {}

  lemma OnlyTodo(marks: seq<Mark>, columns: seq<nat>, c: nat)
    requires Only(marks, columns, c)
    ensures IsTodo(marks, c) && c < |marks| && marks[c] == Todo && c in columns
  {}

  lemma ColumnsWithin(columns: seq<seq<nat>>, refs: seq<seq<nat>>, r: nat)
    requires References(columns, refs) && r < |columns|
    ensures Within(columns[r], |refs|) && Distinct(columns[r])
  {
    hide Distinct, Within;
  }
}
