// The peeling solver's bookkeeping on values: how far each row is from solving a
// column, and the two lists its rows end up in.
module Peels {
  import opened Collections
  import opened Weyl

  const UINT16: nat := 0x1_0000
  const LIST_TERM: nat := 0xFFFF

  datatype Mark = Todo | Peel | Defer

  // The two columns left unmarked, or the column solved: they share memory.
  datatype RowMarks = Unset | Unmarked(first: nat, second: nat) | Result(peelColumn: nat)

  datatype Status = Live | Peeled(column: nat) | Deferred

  ghost predicate Within(s: seq<nat>, n: nat) {
    forall i :: 0 <= i < |s| ==> s[i] < n
  }

  ghost predicate IsTodo(marks: seq<Mark>, c: nat) {
    c < |marks| && marks[c] == Todo
  }

  ghost function TodoColumns(marks: seq<Mark>): set<nat> {
    set c: nat | c < |marks| && IsTodo(marks, c)
  }

  // ---- one row ----

  // pending: the row's columns whose avalanche has not visited the row yet. They
  // include all unmarked ones, and solved ones whose avalanche is still to come.
  ghost predicate Pends(marks: seq<Mark>, columns: seq<nat>, pending: set<nat>) {
    && (forall c :: c in pending ==> c in columns)
    && (forall c :: c in columns && IsTodo(marks, c) ==> c in pending)
  }

  // A row still in play knows how many columns are pending and, from two on, which.
  ghost predicate InPlay(count: nat, rowMarks: RowMarks, pending: set<nat>) {
    && count == |pending| >= 2
    && (|pending| == 2 ==> rowMarks.Unmarked? && rowMarks.first != rowMarks.second && pending == {rowMarks.first, rowMarks.second})
  }

  // A row that is in a list is never looked at again: its count, which may wrap
  // around, passes neither two nor one on its way.
  ghost predicate Spent(count: nat, pending: set<nat>) {
    |pending| <= 2 && ((count == |pending| && count <= 1) || count == (|pending| - 2) % UINT16)
  }

  ghost predicate RowOk(marks: seq<Mark>, columns: seq<nat>, count: nat, rowMarks: RowMarks, pending: set<nat>, status: Status) {
    && count < UINT16 && Pends(marks, columns, pending)
    && (if status == Live then InPlay(count, rowMarks, pending) else Spent(count, pending))
    && (status.Peeled? ==> rowMarks == Result(status.column))
    && (status == Deferred ==> NoneUnmarked(marks, columns))
  }

  // The row can solve no column any more.
  ghost predicate NoneUnmarked(marks: seq<Mark>, columns: seq<nat>) {
    forall c :: c in columns ==> !IsTodo(marks, c)
  }

  function Less(count: nat): nat {
    (count - 1) % UINT16
  }

  // Solved columns only ever replace unmarked ones.
  ghost predicate Evolved(marks: seq<Mark>, later: seq<Mark>) {
    |later| == |marks| && forall c :: 0 <= c < |marks| ==> later[c] == marks[c] || (marks[c] == Todo && later[c] == Peel)
  }

  lemma RowEvolves(marks: seq<Mark>, later: seq<Mark>, columns: seq<nat>, count: nat, rowMarks: RowMarks, pending: set<nat>, status: Status)
    requires |later| == |marks| && forall c :: 0 <= c < |marks| && later[c] == Todo ==> marks[c] == Todo
    requires RowOk(marks, columns, count, rowMarks, pending, status)
    ensures RowOk(later, columns, count, rowMarks, pending, status)
  {}

  // The avalanche of a column visits a row that is in a list already.
  lemma VisitSpent(marks: seq<Mark>, columns: seq<nat>, count: nat, rowMarks: RowMarks, pending: set<nat>, status: Status, c: nat)
    requires RowOk(marks, columns, count, rowMarks, pending, status) && status != Live && c in pending && !IsTodo(marks, c)
    ensures RowOk(marks, columns, Less(count), rowMarks, pending - {c}, status) && Less(count) != 1 && Less(count) != 2
  {
    assert |pending - {c}| == |pending| - 1;
  }

  // One that has more than two columns pending.
  lemma VisitLive(marks: seq<Mark>, columns: seq<nat>, count: nat, rowMarks: RowMarks, pending: set<nat>, c: nat)
    requires RowOk(marks, columns, count, rowMarks, pending, Live) && c in pending && !IsTodo(marks, c)
    ensures Less(count) == |pending - {c}| >= 1 && Pends(marks, columns, pending - {c})
    ensures Less(count) > 2 ==> RowOk(marks, columns, Less(count), rowMarks, pending - {c}, Live)
    ensures Less(count) == 1 ==>
              && rowMarks.Unmarked?
              && pending - {c} == {if rowMarks.first == c then rowMarks.second else rowMarks.first}
  {
    assert |pending - {c}| == |pending| - 1;
  }

  // The unmarked columns of a row, in its order.
  function Unsolved(marks: seq<Mark>, columns: seq<nat>): (s: seq<nat>)
    requires Within(columns, |marks|)
    ensures forall c :: c in s <==> c in columns && marks[c] == Todo
  {
    if columns == [] then [] else
      var n := |columns| - 1;
      Unsolved(marks, columns[..n]) + if marks[columns[n]] == Todo then [columns[n]] else []
  }

  lemma {:induction false} UnsolvedDistinct(marks: seq<Mark>, columns: seq<nat>)
    requires Distinct(columns) && Within(columns, |marks|)
    ensures Distinct(Unsolved(marks, columns))
  {
    if columns != [] {
      var n := |columns| - 1;
      assert forall i :: 0 <= i < n ==> columns[..n][i] == columns[i];
      UnsolvedDistinct(marks, columns[..n]);
      assert columns[n] !in columns[..n];
    }
  }

  lemma SmallSets(s: seq<nat>, pending: set<nat>)
    requires Distinct(s) && |pending| == 2 && forall c :: c in s ==> c in pending
    ensures |s| <= 2 && (|s| == 2 ==> pending == {s[0], s[1]} && s[0] != s[1])
  {
    DistinctSize(s);
    SubsetSize(Elements(s), pending);
    if |s| == 2 {
      assert Elements(s) == {s[0], s[1]};
      SubsetFills({s[0], s[1]}, pending);
    }
  }

  // ---- all rows ----

  // Rows by column and columns by row.
  ghost predicate References(columns: seq<seq<nat>>, refs: seq<seq<nat>>) {
    && (forall r :: 0 <= r < |columns| ==> Distinct(columns[r]) && Within(columns[r], |refs|))
    && (forall c :: 0 <= c < |refs| ==> Distinct(refs[c]) && Within(refs[c], |columns|))
    && (forall r, c :: 0 <= r < |columns| && 0 <= c < |refs| ==> (r in refs[c] <==> c in columns[r]))
  }

  // All rows are fine, but possibly one.
  ghost predicate RowsBut(marks: seq<Mark>, columns: seq<seq<nat>>, counts: seq<nat>, rowMarks: seq<RowMarks>,
                          pending: seq<set<nat>>, status: seq<Status>, but: int) {
    && |counts| == |rowMarks| == |pending| == |status| == |columns|
    && forall r :: 0 <= r < |columns| && r != but ==> RowOk(marks, columns[r], counts[r], rowMarks[r], pending[r], status[r])
  }

  // The rows of the two lists, the peeled ones with the columns they solve.
  ghost predicate Placed(marks: seq<Mark>, status: seq<Status>, peeledRows: seq<nat>, peeledColumns: seq<nat>, deferredRows: seq<nat>) {
    && |peeledRows| == |peeledColumns| && Distinct(peeledRows) && Distinct(peeledColumns) && Distinct(deferredRows)
    && (forall i :: 0 <= i < |peeledRows| ==> peeledRows[i] < |status| && status[peeledRows[i]] == Peeled(peeledColumns[i]))
    && (forall r :: 0 <= r < |status| && status[r].Peeled? ==> r in peeledRows)
    && (forall r: nat :: r in deferredRows <==> r < |status| && status[r] == Deferred)
    && (forall c: nat :: c in peeledColumns <==> c < |marks| && marks[c] == Peel)
  }

  // Each peeled row's other columns are deferred, or solved by rows before it.
  ghost predicate Solves(marks: seq<Mark>, columns: seq<nat>, c: nat, before: seq<nat>) {
    c in columns && forall d :: d in columns ==> d == c || d in before || (d < |marks| && marks[d] == Defer)
  }

  ghost predicate InOrder(marks: seq<Mark>, columns: seq<seq<nat>>, peeledRows: seq<nat>, peeledColumns: seq<nat>) {
    && |peeledRows| == |peeledColumns|
    && forall i :: 0 <= i < |peeledRows| ==>
         peeledRows[i] < |columns| && Solves(marks, columns[peeledRows[i]], peeledColumns[i], peeledColumns[..i])
  }

  // A list linked through next.
  ghost predicate Chain(next: seq<nat>, head: nat, list: seq<nat>) {
    && head == (if list == [] then LIST_TERM else list[0])
    && forall i :: 0 <= i < |list| ==> list[i] < |next| && next[list[i]] == After(list, i)
  }

  ghost function After(list: seq<nat>, i: nat): nat {
    if i + 1 < |list| then list[i + 1] else LIST_TERM
  }

  lemma ChainFront(next: seq<nat>, head: nat, list: seq<nat>, r: nat)
    requires Chain(next, head, list) && r !in list && r < |next|
    ensures Chain(next[r := head], r, [r] + list)
  {
    var more, after := [r] + list, next[r := head];
    assert |list| > 0 ==> more[1] == list[0];
    forall i | 0 <= i < |more|
      ensures more[i] < |after| && after[more[i]] == After(more, i)
    {
      if i > 0 {
        var j := i - 1;
        assert more[i] == list[j] && list[j] in list;
        assert After(more, i) == After(list, j);
      }
    }
  }

  lemma ChainBack(next: seq<nat>, head: nat, list: seq<nat>, r: nat)
    requires Chain(next, head, list) && r !in list && r < |next| && Distinct(list) && list != []
    ensures var tail := list[|list| - 1]; tail < |next| && Chain(next[tail := r][r := LIST_TERM], head, list + [r])
  {
    var more, tail := list + [r], list[|list| - 1];
    var after := next[tail := r][r := LIST_TERM];
    forall i | 0 <= i < |more|
      ensures more[i] < |after| && after[more[i]] == After(more, i)
    {
      if i < |list| {
        assert list[i] in list;
      }
    }
  }

  lemma ChainElsewhere(next: seq<nat>, head: nat, list: seq<nat>, r: nat, x: nat)
    requires Chain(next, head, list) && r !in list && r < |next|
    ensures Chain(next[r := x], head, list)
  {
    forall i | 0 <= i < |list| ensures list[i] != r {
      assert list[i] in list;
    }
  }

  ghost predicate Linked(next: seq<nat>, head: nat, tail: nat, deferHead: nat, peeled: seq<nat>, deferred: seq<nat>) {
    && Chain(next, head, peeled) && Chain(next, deferHead, deferred) && |next| <= LIST_TERM
    && tail == if peeled == [] then LIST_TERM else peeled[|peeled| - 1]
  }

  lemma LinkedPeeled(next: seq<nat>, head: nat, tail: nat, deferHead: nat, peeled: seq<nat>, deferred: seq<nat>, r: nat)
    requires Linked(next, head, tail, deferHead, peeled, deferred) && Distinct(peeled)
    requires r < |next| && r !in peeled && r !in deferred && forall q :: q in peeled ==> q !in deferred
    ensures tail != LIST_TERM ==> tail < |next| && Linked(next[tail := r][r := LIST_TERM], head, r, deferHead, peeled + [r], deferred)
    ensures tail == LIST_TERM ==> Linked(next[r := LIST_TERM], r, r, deferHead, peeled + [r], deferred)
  {
    hide Distinct;
    ChainElsewhere(next, deferHead, deferred, r, LIST_TERM);
    if peeled != [] {
      assert tail in peeled;
      ChainBack(next, head, peeled, r);
      ChainElsewhere(next, deferHead, deferred, tail, r);
      ChainElsewhere(next[tail := r], deferHead, deferred, r, LIST_TERM);
    }
  }

  lemma LinkedDeferred(next: seq<nat>, head: nat, tail: nat, deferHead: nat, peeled: seq<nat>, deferred: seq<nat>, r: nat)
    requires Linked(next, head, tail, deferHead, peeled, deferred)
    requires r < |next| && r !in peeled && r !in deferred
    ensures Linked(next[r := deferHead], head, tail, r, peeled, [r] + deferred)
  {
    ChainElsewhere(next, head, peeled, r, deferHead);
    ChainFront(next, deferHead, deferred, r);
  }

  lemma LinkedLonger(next: seq<nat>, head: nat, tail: nat, deferHead: nat, peeled: seq<nat>, deferred: seq<nat>, x: nat)
    requires Linked(next, head, tail, deferHead, peeled, deferred) && |next| < LIST_TERM
    ensures Linked(next + [x], head, tail, deferHead, peeled, deferred)
  {}

  lemma RowsEvolve(marks: seq<Mark>, later: seq<Mark>, columns: seq<seq<nat>>, counts: seq<nat>, rowMarks: seq<RowMarks>,
                   pending: seq<set<nat>>, status: seq<Status>, but: int)
    requires |later| == |marks| && forall c :: 0 <= c < |marks| && later[c] == Todo ==> marks[c] == Todo
    requires RowsBut(marks, columns, counts, rowMarks, pending, status, but)
    ensures RowsBut(later, columns, counts, rowMarks, pending, status, but)
  {
    hide RowOk;
    forall r | 0 <= r < |columns| && r != but
      ensures RowOk(later, columns[r], counts[r], rowMarks[r], pending[r], status[r])
    {
      RowEvolves(marks, later, columns[r], counts[r], rowMarks[r], pending[r], status[r]);
    }
  }

  lemma DistinctSnoc(s: seq<nat>, x: nat)
    requires Distinct(s) && x !in s
    ensures Distinct(s + [x]) && Distinct([x] + s)
  {}

  lemma PlacedPeeled(marks: seq<Mark>, status: seq<Status>, peeledRows: seq<nat>, peeledColumns: seq<nat>, deferredRows: seq<nat>, r: nat, c: nat)
    requires Placed(marks, status, peeledRows, peeledColumns, deferredRows)
    requires r < |status| && status[r] == Live && IsTodo(marks, c)
    ensures Placed(marks[c := Peel], status[r := Peeled(c)], peeledRows + [r], peeledColumns + [c], deferredRows)
    ensures r !in peeledRows && r !in deferredRows && c !in peeledColumns
  {
    hide Distinct;
    NotPlaced(marks, status, peeledRows, peeledColumns, deferredRows, r);
    DistinctSnoc(peeledRows, r);
    DistinctSnoc(peeledColumns, c);
    var after, rows, columns := status[r := Peeled(c)], peeledRows + [r], peeledColumns + [c];
    forall i | 0 <= i < |rows| ensures rows[i] < |after| && after[rows[i]] == Peeled(columns[i]) {
      if i < |peeledRows| {
        assert peeledRows[i] in peeledRows;
      }
    }
  }

  lemma PlacedDisjoint(marks: seq<Mark>, status: seq<Status>, peeledRows: seq<nat>, peeledColumns: seq<nat>, deferredRows: seq<nat>)
    requires Placed(marks, status, peeledRows, peeledColumns, deferredRows)
    ensures forall r :: r in peeledRows ==> r !in deferredRows
  {
    hide Distinct;
  }

  // Placing the row that was left out.
  lemma RowsWhole(marks: seq<Mark>, columns: seq<seq<nat>>, counts: seq<nat>, rowMarks: seq<RowMarks>,
                  pending: seq<set<nat>>, status: seq<Status>, r: nat, x: RowMarks, y: Status)
    requires RowsBut(marks, columns, counts, rowMarks, pending, status, r) && r < |columns|
    requires RowOk(marks, columns[r], counts[r], x, pending[r], y)
    ensures RowsBut(marks, columns, counts, rowMarks[r := x], pending, status[r := y], -1)
  {
    hide RowOk;
  }

  lemma SpentOk(marks: seq<Mark>, columns: seq<nat>, count: nat, rowMarks: RowMarks, pending: set<nat>, c: nat)
    requires Spent(count, pending) && Pends(marks, columns, pending) && count < UINT16
    ensures NoneUnmarked(marks, columns) ==> RowOk(marks, columns, count, rowMarks, pending, Deferred)
    ensures RowOk(marks, columns, count, Result(c), pending, Peeled(c))
  {
    hide Spent, Pends, NoneUnmarked;
  }

  // A row whose columns are marked but one, which it solves.
  ghost predicate Only(marks: seq<Mark>, columns: seq<nat>, c: nat) {
    IsTodo(marks, c) && c in columns && forall d :: d in columns && IsTodo(marks, d) ==> d == c
  }

  lemma OnlySolves(marks: seq<Mark>, columns: seq<nat>, c: nat, status: seq<Status>, peeledRows: seq<nat>, peeledColumns: seq<nat>, deferredRows: seq<nat>)
    requires Only(marks, columns, c) && Within(columns, |marks|)
    requires Placed(marks, status, peeledRows, peeledColumns, deferredRows)
    ensures Solves(marks, columns, c, peeledColumns)
  {
    hide Distinct;
  }

  lemma NotPlaced(marks: seq<Mark>, status: seq<Status>, peeledRows: seq<nat>, peeledColumns: seq<nat>, deferredRows: seq<nat>, r: nat)
    requires Placed(marks, status, peeledRows, peeledColumns, deferredRows)
    requires r >= |status| || status[r] == Live
    ensures r !in peeledRows && r !in deferredRows
  {}

  lemma PlacedDeferred(marks: seq<Mark>, status: seq<Status>, peeledRows: seq<nat>, peeledColumns: seq<nat>, deferredRows: seq<nat>, r: nat)
    requires Placed(marks, status, peeledRows, peeledColumns, deferredRows)
    requires r < |status| && status[r] == Live
    ensures Placed(marks, status[r := Deferred], peeledRows, peeledColumns, [r] + deferredRows)
    ensures r !in peeledRows && r !in deferredRows
  {
    hide Distinct;
    NotPlaced(marks, status, peeledRows, peeledColumns, deferredRows, r);
    DistinctSnoc(deferredRows, r);
    assert forall i :: 0 <= i < |peeledRows| ==> peeledRows[i] in peeledRows;
  }

  lemma PlacedLonger(marks: seq<Mark>, status: seq<Status>, peeledRows: seq<nat>, peeledColumns: seq<nat>, deferredRows: seq<nat>)
    requires Placed(marks, status, peeledRows, peeledColumns, deferredRows)
    ensures Placed(marks, status + [Live], peeledRows, peeledColumns, deferredRows)
  {
    hide Distinct;
  }

  lemma InOrderPeeled(marks: seq<Mark>, columns: seq<seq<nat>>, peeledRows: seq<nat>, peeledColumns: seq<nat>, r: nat, c: nat)
    requires InOrder(marks, columns, peeledRows, peeledColumns) && r < |columns| && IsTodo(marks, c)
    requires Solves(marks, columns[r], c, peeledColumns)
    ensures InOrder(marks[c := Peel], columns, peeledRows + [r], peeledColumns + [c])
  {
    var after, rows, cols := marks[c := Peel], peeledRows + [r], peeledColumns + [c];
    forall i | 0 <= i < |rows| ensures rows[i] < |columns| && Solves(after, columns[rows[i]], cols[i], cols[..i]) {
      assert cols[..i] == peeledColumns[..i];
    }
  }

  lemma InOrderEvolves(marks: seq<Mark>, columns: seq<seq<nat>>, peeledRows: seq<nat>, peeledColumns: seq<nat>, c: nat)
    requires InOrder(marks, columns, peeledRows, peeledColumns) && IsTodo(marks, c)
    ensures InOrder(marks[c := Defer], columns, peeledRows, peeledColumns)
  {}

  // ---- what an avalanche does ----

  // The parts it changes for the columns.
  datatype State = State(marks: seq<Mark>, weight2Refs: seq<nat>, pending: seq<set<nat>>, rows: seq<nat>, columns: seq<nat>)

  ghost predicate Fits(s: State) {
    && |s.weight2Refs| == |s.marks| && |s.rows| == |s.columns| && Distinct(s.columns)
    && forall c: nat :: c in s.columns <==> c < |s.marks| && s.marks[c] == Peel
  }

  ghost function Newly(marks: seq<Mark>, later: seq<Mark>): set<nat> {
    TodoColumns(marks) - TodoColumns(later)
  }

  // The columns gone are pending no more, nor is c in the rows visited.
  ghost predicate Drained(pending: seq<set<nat>>, later: seq<set<nat>>, gone: set<nat>, c: nat, visited: seq<nat>) {
    && |later| == |pending|
    && forall r :: 0 <= r < |pending| ==> later[r] == pending[r] - gone - if r in visited then {c} else {}
  }

  // Columns marked before keep what the weight-2 count shares its memory with;
  // those solved since name the row that solved them.
  ghost predicate Effect(s: State, t: State, c: nat, visited: seq<nat>) {
    && Fits(s) && Fits(t)
    && Evolved(s.marks, t.marks) && Drained(s.pending, t.pending, Newly(s.marks, t.marks), c, visited)
    && s.rows <= t.rows && s.columns <= t.columns
    && (forall d :: 0 <= d < |s.marks| && s.marks[d] != Todo ==> t.weight2Refs[d] == s.weight2Refs[d])
    && (forall i :: |s.rows| <= i < |t.rows| ==> t.columns[i] < |t.marks| && t.weight2Refs[t.columns[i]] == t.rows[i])
  }

  lemma EffectNone(s: State, t: State, c: nat)
    requires Fits(s) && t == s.(weight2Refs := t.weight2Refs) && |t.weight2Refs| == |s.weight2Refs|
    requires forall d :: 0 <= d < |s.marks| && s.marks[d] != Todo ==> t.weight2Refs[d] == s.weight2Refs[d]
    ensures Effect(s, t, c, [])
  {}

  lemma DrainedThen(m0: seq<Mark>, m1: seq<Mark>, m2: seq<Mark>, p0: seq<set<nat>>, p1: seq<set<nat>>, p2: seq<set<nat>>, c: nat, v1: seq<nat>, v2: seq<nat>)
    requires Evolved(m0, m1) && Evolved(m1, m2)
    requires Drained(p0, p1, Newly(m0, m1), c, v1) && Drained(p1, p2, Newly(m1, m2), c, v2)
    ensures Evolved(m0, m2) && Drained(p0, p2, Newly(m0, m2), c, v1 + v2)
  {
    assert Newly(m0, m2) == Newly(m0, m1) + Newly(m1, m2);
  }

  lemma SolversKept(s: State, t: State, u: State)
    requires Fits(t) && s.rows <= t.rows <= u.rows && s.columns <= t.columns <= u.columns && |u.rows| == |u.columns| && |u.marks| == |t.marks| <= |u.weight2Refs|
    requires forall d :: 0 <= d < |t.marks| && t.marks[d] != Todo ==> u.weight2Refs[d] == t.weight2Refs[d]
    requires forall i :: |s.rows| <= i < |t.rows| ==> t.columns[i] < |t.marks| && t.weight2Refs[t.columns[i]] == t.rows[i]
    requires forall i :: |t.rows| <= i < |u.rows| ==> u.columns[i] < |u.marks| && u.weight2Refs[u.columns[i]] == u.rows[i]
    ensures forall i :: |s.rows| <= i < |u.rows| ==> u.columns[i] < |u.marks| && u.weight2Refs[u.columns[i]] == u.rows[i]
  {
    forall i | |s.rows| <= i < |u.rows| ensures u.columns[i] < |u.marks| && u.weight2Refs[u.columns[i]] == u.rows[i] {
      if i < |t.rows| {
        assert u.columns[i] == t.columns[i] && t.columns[i] in t.columns;
      }
    }
  }

  lemma EffectThen(s: State, t: State, u: State, c: nat, v1: seq<nat>, v2: seq<nat>)
    requires Effect(s, t, c, v1) && Effect(t, u, c, v2)
    ensures Effect(s, u, c, v1 + v2)
  {
    hide Drained, Newly;
    DrainedThen(s.marks, t.marks, u.marks, s.pending, t.pending, u.pending, c, v1, v2);
    SolversKept(s, t, u);
  }

  lemma EffectThenNone(s: State, t: State, u: State, c: nat, v: seq<nat>)
    requires Effect(s, t, c, v) && Effect(t, u, c, [])
    ensures Effect(s, u, c, v)
  {
    hide Effect;
    EffectThen(s, t, u, c, v, []);
    assert v + [] == v;
  }

  lemma EffectVisit(s: State, c: nat, r: nat)
    requires Fits(s) && r < |s.pending|
    ensures Effect(s, s.(pending := s.pending[r := s.pending[r] - {c}]), c, [r])
  {}

  lemma EffectParts(s: State, t: State, c: nat, v: seq<nat>)
    requires Effect(s, t, c, v)
    ensures Fits(t) && Evolved(s.marks, t.marks) && Drained(s.pending, t.pending, Newly(s.marks, t.marks), c, v)
  {
    hide Fits, Evolved, Drained, Newly;
  }

  // Solving column c: it is marked, its avalanche runs through all its rows, and
  // then the row is noted in it.
  lemma EffectSolve(s: State, t: State, u: State, r: nat, c: nat, x: nat, v: seq<nat>)
    requires Fits(s) && c < |s.marks| && s.marks[c] == Todo
    requires t == s.(marks := s.marks[c := Peel], rows := s.rows + [r], columns := s.columns + [c])
    requires Effect(t, u, c, v) && forall q :: 0 <= q < |s.pending| && c in s.pending[q] ==> q in v
    ensures c < |u.weight2Refs| && Effect(s, u.(weight2Refs := u.weight2Refs[c := r]), x, [])
  {
    var w := u.(weight2Refs := u.weight2Refs[c := r]);
    assert !IsTodo(t.marks, c) && !IsTodo(u.marks, c) && forall d :: d != c ==> IsTodo(t.marks, d) == IsTodo(s.marks, d);
    assert Newly(s.marks, u.marks) == Newly(t.marks, u.marks) + {c};
    assert Drained(s.pending, w.pending, Newly(s.marks, w.marks), x, []);
    SolverNoted(s, t, u, r, c);
  }

  lemma SolverNoted(s: State, t: State, u: State, r: nat, c: nat)
    requires Fits(s) && Fits(t) && Fits(u) && c < |s.marks| && s.marks[c] == Todo && |s.marks| == |u.marks|
    requires t == s.(marks := s.marks[c := Peel], rows := s.rows + [r], columns := s.columns + [c])
    requires t.rows <= u.rows && t.columns <= u.columns && Distinct(u.columns)
    requires forall i :: |t.rows| <= i < |u.rows| ==> u.columns[i] < |u.marks| && u.weight2Refs[u.columns[i]] == u.rows[i]
    ensures forall i :: |s.rows| <= i < |u.rows| ==> u.columns[i] < |u.marks| && u.weight2Refs[c := r][u.columns[i]] == u.rows[i]
  {
    var at := |s.rows|;
    assert u.columns[at] == t.columns[at] == c && u.rows[at] == t.rows[at] == r;
    forall i | at <= i < |u.rows| ensures u.columns[i] < |u.marks| && u.weight2Refs[c := r][u.columns[i]] == u.rows[i] {
      assert i > at ==> u.columns[i] != u.columns[at];
    }
  }

  lemma TodoPeeled(marks: seq<Mark>, c: nat, m: Mark)
    requires c < |marks| && marks[c] == Todo && m != Todo
    ensures |TodoColumns(marks[c := m])| == |TodoColumns(marks)| - 1
  {
    assert forall d :: d != c ==> IsTodo(marks[c := m], d) == IsTodo(marks, d);
    assert IsTodo(marks, c) && TodoColumns(marks[c := m]) == TodoColumns(marks) - {c};
  }

  lemma TodoShrinks(marks: seq<Mark>, later: seq<Mark>)
    requires Evolved(marks, later)
    ensures |TodoColumns(later)| <= |TodoColumns(marks)|
  {
    SubsetSize(TodoColumns(later), TodoColumns(marks));
  }

  // ---- one visit ----

  ghost function Other(rowMarks: RowMarks, c: nat): nat
    requires rowMarks.Unmarked?
  {
    if rowMarks.first == c then rowMarks.second else rowMarks.first
  }

  // The row's count after the avalanche of column c has come by.
  ghost predicate Counted(marks: seq<Mark>, columns: seq<nat>, count: nat, rowMarks: RowMarks, pending: set<nat>, status: Status, c: nat) {
    && count < UINT16 && Pends(marks, columns, pending)
    && (count == 1 ==> status == Live && |pending| == 1 && rowMarks.Unmarked? && pending == {Other(rowMarks, c)})
    && (count == 2 ==> status == Live && |pending| == 2)
    && (count != 1 && count != 2 ==> RowOk(marks, columns, count, rowMarks, pending, status))
  }

  lemma Visited(marks: seq<Mark>, columns: seq<nat>, count: nat, rowMarks: RowMarks, pending: set<nat>, status: Status, c: nat)
    requires RowOk(marks, columns, count, rowMarks, pending, status) && c in pending && !IsTodo(marks, c)
    ensures Counted(marks, columns, Less(count), rowMarks, pending - {c}, status, c)
  {
    hide InPlay, Spent;
    if status == Live {
      VisitLive(marks, columns, count, rowMarks, pending, c);
    } else {
      VisitSpent(marks, columns, count, rowMarks, pending, status, c);
    }
  }

  // One column left: the row solves it, or nothing.
  lemma CountedOne(marks: seq<Mark>, columns: seq<nat>, rowMarks: RowMarks, pending: set<nat>, status: Status, c: nat)
    requires Counted(marks, columns, 1, rowMarks, pending, status, c)
    ensures status == Live && rowMarks.Unmarked? && Spent(1, pending) && Pends(marks, columns, pending)
    ensures if IsTodo(marks, Other(rowMarks, c)) then Only(marks, columns, Other(rowMarks, c)) else NoneUnmarked(marks, columns)
    ensures Other(rowMarks, c) in columns && 1 < UINT16
  {
    assert Other(rowMarks, c) in pending;
  }

  // Two pending columns: both unmarked, and the row stays in play, or fewer.
  lemma CountedTwo(marks: seq<Mark>, columns: seq<nat>, rowMarks: RowMarks, pending: set<nat>, status: Status, c: nat)
    requires Counted(marks, columns, 2, rowMarks, pending, status, c) && Distinct(columns) && Within(columns, |marks|)
    ensures var s := Unsolved(marks, columns);
            && status == Live && |s| <= 2 && 0 < UINT16 && Spent(0, pending) && Pends(marks, columns, pending)
            && (|s| == 2 ==> RowOk(marks, columns, 2, Unmarked(s[0], s[1]), pending, status))
            && (|s| == 1 ==> Only(marks, columns, s[0]))
            && (|s| == 0 ==> NoneUnmarked(marks, columns))
  {
    var s := Unsolved(marks, columns);
    UnsolvedDistinct(marks, columns);
    SmallSets(s, pending);
    assert |s| >= 1 ==> s[0] in s;
    assert |s| == 1 ==> forall d :: d in s ==> d == s[0];
  }

  lemma RowsOther(marks: seq<Mark>, columns: seq<seq<nat>>, counts: seq<nat>, rowMarks: seq<RowMarks>,
                  pending: seq<set<nat>>, status: seq<Status>, r: nat, x: nat, y: set<nat>)
    requires RowsBut(marks, columns, counts, rowMarks, pending, status, -1) && r < |columns|
    ensures RowsBut(marks, columns, counts[r := x], rowMarks, pending[r := y], status, r)
    ensures RowOk(marks, columns[r], counts[r], rowMarks[r], pending[r], status[r])
  {
    hide RowOk;
  }

  lemma RowsPend(marks: seq<Mark>, columns: seq<seq<nat>>, counts: seq<nat>, rowMarks: seq<RowMarks>,
                 pending: seq<set<nat>>, status: seq<Status>, r: int, c: nat)
    requires RowsBut(marks, columns, counts, rowMarks, pending, status, r) && IsTodo(marks, c)
    requires 0 <= r < |columns| ==> Pends(marks, columns[r], pending[r])
    ensures AllPend(columns, pending, c)
  {
    hide InPlay, Spent;
    assert forall q :: 0 <= q < |columns| && q != r ==> RowOk(marks, columns[q], counts[q], rowMarks[q], pending[q], status[q]);
  }

  lemma PendingInRefs(marks: seq<Mark>, columns: seq<seq<nat>>, counts: seq<nat>, rowMarks: seq<RowMarks>,
                      pending: seq<set<nat>>, status: seq<Status>, refs: seq<seq<nat>>, r: int, c: nat)
    requires RowsBut(marks, columns, counts, rowMarks, pending, status, r) && References(columns, refs) && c < |refs|
    requires 0 <= r < |columns| ==> Pends(marks, columns[r], pending[r])
    ensures |pending| == |columns| && forall q :: 0 <= q < |pending| && c in pending[q] ==> q in refs[c]
  {
    hide InPlay, Spent, Distinct, Within;
    assert forall q :: 0 <= q < |columns| && q != r ==> RowOk(marks, columns[q], counts[q], rowMarks[q], pending[q], status[q]);
  }

  // All rows of the column still count it.
  ghost predicate AllPend(columns: seq<seq<nat>>, pending: seq<set<nat>>, c: nat) {
    |pending| == |columns| && forall r :: 0 <= r < |columns| && c in columns[r] ==> c in pending[r]
  }

  lemma StillPending(columns: seq<seq<nat>>, refs: seq<seq<nat>>, s: State, t: State, c: nat, i: nat)
    requires References(columns, refs) && c < |refs| && i < |refs[c]| && Effect(s, t, c, refs[c][..i])
    requires !IsTodo(s.marks, c) && AllPend(columns, s.pending, c)
    ensures var r := refs[c][i]; r < |columns| == |t.pending| && c in t.pending[r] && !IsTodo(t.marks, c)
  {
    var r := refs[c][i];
    assert r in refs[c] && r !in refs[c][..i];
    assert c !in Newly(s.marks, t.marks);
  }

  lemma EffectAny(s: State, t: State, c: nat, d: nat)
    requires Effect(s, t, c, [])
    ensures Effect(s, t, d, [])
  {}

  lemma EffectSame(s: State, c: nat)
    requires Fits(s)
    ensures Effect(s, s, c, [])
  {}

  lemma CountedMore(marks: seq<Mark>, columns: seq<nat>, count: nat, rowMarks: RowMarks, pending: set<nat>, status: Status, c: nat)
    requires Counted(marks, columns, count, rowMarks, pending, status, c) && count != 1 && count != 2
    ensures RowOk(marks, columns, count, rowMarks, pending, status)
  {}

  lemma OtherIs(rowMarks: RowMarks, c: nat)
    requires rowMarks.Unmarked?
    ensures Other(rowMarks, c) == if rowMarks.first == c then rowMarks.second else rowMarks.first
  {}

  lemma TodoIs(marks: seq<Mark>, columns: seq<nat>, c: nat)
    requires Within(columns, |marks|) && c in columns
    ensures c < |marks| && (IsTodo(marks, c) <==> marks[c] == Todo)
  {}

  lemma NotTodo(marks: seq<Mark>, c: nat)
    requires c < |marks| && marks[c] != Todo
    ensures !IsTodo(marks, c)
  {}

  lemma WithinPart(s: seq<nat>, i: nat, n: nat)
    requires Within(s, n) && i <= |s|
    ensures Within(s[..i], n)
  {}

  lemma WithinAt(s: seq<nat>, i: nat, n: nat)
    requires Within(s, n) && i < |s|
    ensures s[i] < n
  {}

  lemma UnsolvedLast(marks: seq<Mark>, columns: seq<nat>)
    requires Within(columns, |marks|) && columns != [] && columns[|columns| - 1] < |marks| && Within(columns[..|columns| - 1], |marks|)
    ensures var front, c := Unsolved(marks, columns[..|columns| - 1]), columns[|columns| - 1];
            Unsolved(marks, columns) == if marks[c] == Todo then front + [c] else front
  {}

  lemma UnsolvedSnoc(marks: seq<Mark>, columns: seq<nat>, i: nat)
    requires Within(columns, |marks|) && i < |columns|
    ensures Within(columns[..i], |marks|) && Within(columns[..i + 1], |marks|) && columns[i] < |marks|
    ensures Unsolved(marks, columns[..i + 1]) ==
            if marks[columns[i]] == Todo then Unsolved(marks, columns[..i]) + [columns[i]] else Unsolved(marks, columns[..i])
  {
    hide Unsolved, Within;
    WithinPart(columns, i, |marks|);
    WithinPart(columns, i + 1, |marks|);
    WithinAt(columns, i, |marks|);
    var more := columns[..i + 1];
    assert more[..i] == columns[..i] && more[i] == columns[i];
    UnsolvedLast(marks, more);
  }

  lemma UnsolvedNone(marks: seq<Mark>, columns: seq<nat>)
    ensures columns[..0] == [] && Within(columns[..0], |marks|) && Unsolved(marks, columns[..0]) == []
  {}

  // The row that is left out may have any count.
  lemma RowsCleared(marks: seq<Mark>, columns: seq<seq<nat>>, counts: seq<nat>, rowMarks: seq<RowMarks>,
                    pending: seq<set<nat>>, status: seq<Status>, r: nat, x: nat)
    requires RowsBut(marks, columns, counts, rowMarks, pending, status, r) && r < |columns|
    ensures RowsBut(marks, columns, counts[r := x], rowMarks, pending, status, r)
  {
    hide RowOk;
  }

  // ---- a new row ----

  // The row is noted in all of its columns.
  ghost function Referenced(refs: seq<seq<nat>>, columns: seq<nat>, row: nat): (t: seq<seq<nat>>)
    ensures |t| == |refs| && forall c :: 0 <= c < |refs| ==> t[c] == if c in columns then refs[c] + [row] else refs[c]
  {
    seq(|refs|, c requires 0 <= c < |refs| => if c in columns then refs[c] + [row] else refs[c])
  }

  lemma ReferencedOne(refs: seq<seq<nat>>, columns: seq<nat>, row: nat, j: nat, i: nat)
    requires Distinct(columns) && Within(columns, |refs|) && j <= i < |columns|
    ensures var c := columns[i]; c < |refs| && c !in columns[j..i] && Referenced(refs, columns[j..i], row)[c] == refs[c]
    ensures Referenced(refs, columns[j..i + 1], row) == Referenced(refs, columns[j..i], row)[columns[i] := refs[columns[i]] + [row]]
  {
    assert columns[j..i + 1] == columns[j..i] + [columns[i]];
  }

  lemma ReferencedFirst(refs: seq<seq<nat>>, columns: seq<nat>, row: nat, j: nat, i: nat)
    requires Distinct(columns) && Within(columns, |refs|) && j < i <= |columns|
    ensures var c := columns[j]; c < |refs| && Referenced(refs, columns[j..i], row)[c] == refs[c] + [row]
    ensures Referenced(refs, columns[j + 1..i], row) == Referenced(refs, columns[j..i], row)[columns[j] := refs[columns[j]]]
  {
    assert columns[j..i] == [columns[j]] + columns[j + 1..i];
    assert columns[j] !in columns[j + 1..i];
  }

  lemma ReferencedNone(refs: seq<seq<nat>>, columns: seq<nat>, row: nat, i: nat)
    requires i <= |columns|
    ensures Referenced(refs, columns[i..i], row) == refs
  {}

  lemma ReferencesAdded(columns: seq<seq<nat>>, refs: seq<seq<nat>>, more: seq<nat>)
    requires References(columns, refs) && Distinct(more) && Within(more, |refs|)
    ensures References(columns + [more], Referenced(refs, more, |columns|))
  {
    hide Distinct;
    var t, all, row := Referenced(refs, more, |columns|), columns + [more], |columns|;
    forall c | 0 <= c < |t| ensures Distinct(t[c]) && Within(t[c], |all|) {
      assert row !in refs[c];
      DistinctSnoc(refs[c], row);
    }
    forall r, c | 0 <= r < |all| && 0 <= c < |t| ensures r in t[c] <==> c in all[r] {
      assert row !in refs[c];
    }
  }

  ghost function UnmarkedSet(s: seq<nat>): set<nat> {
    set c | c in s
  }

  lemma UnsolvedCount(marks: seq<Mark>, columns: seq<nat>)
    requires Distinct(columns) && Within(columns, |marks|)
    ensures var s := Unsolved(marks, columns); |s| <= |marks| && |UnmarkedSet(s)| == |s| && Pends(marks, columns, UnmarkedSet(s))
    ensures var s := Unsolved(marks, columns); |s| == 2 ==> s[0] != s[1] && UnmarkedSet(s) == {s[0], s[1]}
  {
    var s := Unsolved(marks, columns);
    UnsolvedDistinct(marks, columns);
    DistinctSize(s);
    assert UnmarkedSet(s) == Elements(s);
    SubsetSize(Elements(s), Range(|marks|));
  }

  // What the number of unmarked columns makes of a new row.
  lemma NewRow(marks: seq<Mark>, columns: seq<nat>, rowMarks: RowMarks)
    requires Distinct(columns) && Within(columns, |marks|) && |marks| < LIST_TERM
    ensures var s := Unsolved(marks, columns);
            && |s| < UINT16 && Pends(marks, columns, UnmarkedSet(s))
            && (|s| <= 1 ==> Spent(|s|, UnmarkedSet(s)))
            && (|s| == 1 ==> Only(marks, columns, s[0]))
            && (|s| == 0 ==> NoneUnmarked(marks, columns))
            && ((|s| == 2 && rowMarks == Unmarked(s[0], s[1])) || |s| > 2 ==> RowOk(marks, columns, |s|, rowMarks, UnmarkedSet(s), Live))
  {
    var s := Unsolved(marks, columns);
    UnsolvedCount(marks, columns);
    assert |s| == 1 ==> s[0] in s && forall d :: d in s ==> d == s[0];
  }

  lemma RowsAdded(marks: seq<Mark>, columns: seq<seq<nat>>, counts: seq<nat>, rowMarks: seq<RowMarks>,
                  pending: seq<set<nat>>, status: seq<Status>, more: seq<nat>, x: nat, y: RowMarks, z: set<nat>)
    requires RowsBut(marks, columns, counts, rowMarks, pending, status, -1)
    ensures RowsBut(marks, columns + [more], counts + [x], rowMarks + [y], pending + [z], status + [Live], |columns|)
  {
    hide RowOk;
    assert forall r :: 0 <= r < |columns| ==> RowOk(marks, columns[r], counts[r], rowMarks[r], pending[r], status[r]);
  }

  // ---- between avalanches ----

  // Only unmarked columns are pending, and the solved ones name their rows.
  ghost predicate Quiet(s: State) {
    && Fits(s)
    && (forall r, d :: 0 <= r < |s.pending| && d in s.pending[r] ==> IsTodo(s.marks, d))
    && (forall i :: 0 <= i < |s.rows| ==> s.columns[i] < |s.marks| && s.weight2Refs[s.columns[i]] == s.rows[i])
  }

  // But for column c, which rows v still count.
  ghost predicate QuietBut(s: State, c: nat, v: seq<nat>) {
    && Fits(s)
    && (forall r, d :: 0 <= r < |s.pending| && d in s.pending[r] ==> IsTodo(s.marks, d) || (d == c && r in v))
    && (forall i :: 0 <= i < |s.rows| ==> s.columns[i] < |s.marks| && s.weight2Refs[s.columns[i]] == s.rows[i])
  }

  // Then the avalanche of the column ends quietly.
  lemma QuietAfter(s: State, t: State, c: nat, v: seq<nat>)
    requires Effect(s, t, c, v) && QuietBut(s, c, v)
    ensures Quiet(t)
  {
    hide Newly;
    forall r, d | 0 <= r < |t.pending| && d in t.pending[r] ensures IsTodo(t.marks, d) {
      QuietOne(s, t, c, v, r, d);
    }
    SolversKept(s.(rows := [], columns := []), s, t);
  }

  lemma QuietOne(s: State, t: State, c: nat, v: seq<nat>, r: nat, d: nat)
    requires Drained(s.pending, t.pending, Newly(s.marks, t.marks), c, v) && r < |t.pending| && d in t.pending[r]
    requires r < |s.pending| && (d in s.pending[r] ==> IsTodo(s.marks, d) || (d == c && r in v))
    ensures IsTodo(t.marks, d)
  {
    assert d in s.pending[r] && d !in Newly(s.marks, t.marks);
    assert d in TodoColumns(s.marks) && d in TodoColumns(t.marks);
  }

  // The count of the columns s, and two of them in turn.
  ghost predicate Keeps(count: nat, unmarked: seq<nat>, s: seq<nat>) {
    count == |s| && |unmarked| == 2 && (|s| == 1 ==> unmarked[0] == s[0]) && (|s| == 2 ==> unmarked == s)
  }

  lemma KeepsNext(count: nat, unmarked: seq<nat>, s: seq<nat>, c: nat)
    requires Keeps(count, unmarked, s)
    ensures count % 2 < |unmarked| && Keeps(count + 1, unmarked[count % 2 := c], s + [c])
  {
    if |s| == 1 {
      assert s + [c] == [s[0], c];
    }
  }

  lemma KeepsTwo(count: nat, unmarked: seq<nat>, s: seq<nat>)
    requires Keeps(count, unmarked, s)
    ensures count == |s| && |unmarked| == 2 && (|s| == 1 ==> unmarked[0] == s[0]) && (|s| == 2 ==> unmarked == s)
  {}

  lemma KeepsNone()
    ensures Keeps(0, [0, 0], [])
  {}

  // The same row may now be looked up among one more.
  lemma InOrderLonger(marks: seq<Mark>, columns: seq<seq<nat>>, peeledRows: seq<nat>, peeledColumns: seq<nat>, more: seq<nat>)
    requires InOrder(marks, columns, peeledRows, peeledColumns)
    ensures InOrder(marks, columns + [more], peeledRows, peeledColumns)
  {
    hide Solves;
  }

  ghost predicate NoneDeferred(marks: seq<Mark>) {
    forall c :: 0 <= c < |marks| ==> marks[c] != Defer
  }

  lemma EvolvedNoneDeferred(marks: seq<Mark>, later: seq<Mark>)
    requires Evolved(marks, later) && NoneDeferred(marks)
    ensures NoneDeferred(later)
  {}

  // A row with no pending columns that are marked leaves it quiet.
  lemma QuietRow(s: State, p: set<nat>)
    requires Quiet(s) && forall d :: d in p ==> IsTodo(s.marks, d)
    ensures Quiet(s.(pending := s.pending + [p]))
  {
    hide IsTodo;
  }

  lemma QuietEffect(s: State, t: State, c: nat, v: seq<nat>)
    requires Quiet(s) && Effect(s, t, c, v)
    ensures Quiet(t)
  {
    hide Effect, IsTodo;
    QuietAfter(s, t, c, v);
  }

  lemma UnmarkedTodo(marks: seq<Mark>, columns: seq<nat>)
    requires Within(columns, |marks|)
    ensures forall d :: d in UnmarkedSet(Unsolved(marks, columns)) ==> IsTodo(marks, d)
  {}

  lemma EvolvedSame(marks: seq<Mark>)
    ensures Evolved(marks, marks)
  {}

  lemma EffectGrows(s: State, t: State, c: nat, v: seq<nat>)
    requires Effect(s, t, c, v)
    ensures s.rows <= t.rows && s.columns <= t.columns
  {
    hide Fits, Evolved, Drained, Newly;
  }

  const REF_LIST_MAX: nat := 32

  // The first i columns have room for one more row.
  ghost predicate Room(refs: seq<seq<nat>>, columns: seq<nat>, i: nat) {
    i <= |columns| && forall k :: 0 <= k < i ==> columns[k] < |refs| && |refs[columns[k]]| < REF_LIST_MAX
  }

  lemma RoomNext(refs: seq<seq<nat>>, columns: seq<nat>, i: nat)
    requires Room(refs, columns, i) && i < |columns| && columns[i] < |refs|
    ensures |refs[columns[i]]| < REF_LIST_MAX ==> Room(refs, columns, i + 1)
    ensures |refs[columns[i]]| >= REF_LIST_MAX ==> !Room(refs, columns, |columns|)
  {}

  lemma RoomNone(refs: seq<seq<nat>>, columns: seq<nat>)
    ensures Room(refs, columns, 0)
  {}

  // ---- greedy peeling ----

  // The columns put off, linked from the last one put off to the first.
  ghost predicate Defers(marks: seq<Mark>, next: seq<nat>, head: nat, list: seq<nat>) {
    && Distinct(list) && Chain(next, head, list) && |next| == |marks|
    && forall c: nat :: c in list <==> c < |marks| && marks[c] == Defer
  }

  lemma DefersNone(marks: seq<Mark>, next: seq<nat>)
    requires NoneDeferred(marks) && |next| == |marks|
    ensures Defers(marks, next, LIST_TERM, [])
  {}

  lemma DefersFront(marks: seq<Mark>, next: seq<nat>, head: nat, list: seq<nat>, c: nat)
    requires Defers(marks, next, head, list) && IsTodo(marks, c)
    ensures Defers(marks[c := Defer], next[c := head], c, [c] + list)
  {
    hide Distinct;
    ChainFront(next, head, list, c);
    DistinctSnoc(list, c);
  }

  lemma DefersEvolve(marks: seq<Mark>, later: seq<Mark>, next: seq<nat>, head: nat, list: seq<nat>)
    requires Defers(marks, next, head, list) && Evolved(marks, later)
    ensures Defers(later, next, head, list)
  {
    hide Distinct, Chain;
  }

  lemma PlacedColumnDeferred(marks: seq<Mark>, status: seq<Status>, peeledRows: seq<nat>, peeledColumns: seq<nat>, deferredRows: seq<nat>, c: nat)
    requires Placed(marks, status, peeledRows, peeledColumns, deferredRows) && IsTodo(marks, c)
    ensures Placed(marks[c := Defer], status, peeledRows, peeledColumns, deferredRows)
  {
    hide Distinct;
  }

  // Putting off a column, all of its rows still count it.
  lemma QuietDeferred(s: State, c: nat, v: seq<nat>)
    requires Quiet(s) && IsTodo(s.marks, c) && forall q :: 0 <= q < |s.pending| && c in s.pending[q] ==> q in v
    ensures QuietBut(s.(marks := s.marks[c := Defer]), c, v)
  {
    hide Distinct;
    var t := s.(marks := s.marks[c := Defer]);
    forall r, d | 0 <= r < |t.pending| && d in t.pending[r] ensures IsTodo(t.marks, d) || (d == c && r in v) {
      assert IsTodo(s.marks, d);
    }
    assert Fits(t);
  }

  // The order in which columns are put off: by weight-2 references, then by rows.
  predicate Heavier(w: nat, n: nat, v: nat, m: nat) {
    w > v || (w == v && n >= m)
  }

  // The last of the heaviest unmarked columns below n.
  ghost predicate Best(marks: seq<Mark>, weight2Refs: seq<nat>, refs: seq<seq<nat>>, n: nat, best: nat)
    requires |marks| == |weight2Refs| == |refs| && n <= |marks|
  {
    if best == LIST_TERM then forall c :: 0 <= c < n ==> marks[c] != Todo
    else
      && best < n && marks[best] == Todo
      && forall c :: 0 <= c < n && marks[c] == Todo ==>
           if c <= best then Heavier(weight2Refs[best], |refs[best]|, weight2Refs[c], |refs[c]|)
           else !Heavier(weight2Refs[c], |refs[c]|, weight2Refs[best], |refs[best]|)
  }

  lemma BestNext(marks: seq<Mark>, weight2Refs: seq<nat>, refs: seq<seq<nat>>, n: nat, best: nat)
    requires |marks| == |weight2Refs| == |refs| < LIST_TERM && n < |marks| && Best(marks, weight2Refs, refs, n, best)
    ensures best == LIST_TERM || best < n
    ensures Best(marks, weight2Refs, refs, n + 1,
                 if marks[n] == Todo && (best == LIST_TERM || Heavier(weight2Refs[n], |refs[n]|, weight2Refs[best], |refs[best]|)) then n else best)
  {}

  lemma HeavierIs(w: nat, n: nat, v: nat, m: nat)
    ensures Heavier(w, n, v, m) <==> w > v || (w == v && n >= m)
  {}

  lemma BestNone(marks: seq<Mark>, weight2Refs: seq<nat>, refs: seq<seq<nat>>)
    requires |marks| == |weight2Refs| == |refs|
    ensures Best(marks, weight2Refs, refs, 0, LIST_TERM)
  {}

  // ---- the result ----

  ghost predicate AllMarked(marks: seq<Mark>) {
    forall c :: 0 <= c < |marks| ==> marks[c] != Todo
  }

  lemma NoneLive(marks: seq<Mark>, columns: seq<seq<nat>>, counts: seq<nat>, rowMarks: seq<RowMarks>,
                 pending: seq<set<nat>>, status: seq<Status>)
    requires RowsBut(marks, columns, counts, rowMarks, pending, status, -1) && AllMarked(marks)
    requires forall r, d :: 0 <= r < |pending| && d in pending[r] ==> IsTodo(marks, d)
    ensures forall r :: 0 <= r < |status| ==> status[r] != Live
  {
    forall r | 0 <= r < |status| ensures status[r] != Live {
      assert RowOk(marks, columns[r], counts[r], rowMarks[r], pending[r], status[r]);
      assert forall d :: d in pending[r] ==> IsTodo(marks, d);
      assert pending[r] == {};
    }
  }

  // Two lists without repetition that share the numbers below n.
  ghost predicate Share(s: seq<nat>, t: seq<nat>, n: nat) {
    && Distinct(s) && Distinct(t)
    && (forall x :: x in s ==> x !in t)
    && (forall x: nat :: x in s || x in t <==> x < n)
  }

  lemma ShareCount(s: seq<nat>, t: seq<nat>, n: nat)
    requires Share(s, t, n)
    ensures |s| + |t| == n
  {
    hide Distinct;
    DistinctSize(s);
    DistinctSize(t);
    assert Elements(s) !! Elements(t) && Elements(s) + Elements(t) == Range(n);
  }

  lemma Shares(marks: seq<Mark>, status: seq<Status>, peeledRows: seq<nat>, peeledColumns: seq<nat>, deferredRows: seq<nat>,
               next: seq<nat>, head: nat, deferredColumns: seq<nat>)
    requires Placed(marks, status, peeledRows, peeledColumns, deferredRows) && Defers(marks, next, head, deferredColumns)
    requires AllMarked(marks) && forall r :: 0 <= r < |status| ==> status[r] != Live
    ensures Share(peeledRows, deferredRows, |status|) && Share(peeledColumns, deferredColumns, |marks|)
  {
    hide Distinct, Chain;
    PlacedDisjoint(marks, status, peeledRows, peeledColumns, deferredRows);
    assert forall i :: 0 <= i < |peeledRows| ==> peeledRows[i] in peeledRows;
  }

  lemma BestIs(marks: seq<Mark>, weight2Refs: seq<nat>, refs: seq<seq<nat>>, best: nat)
    requires |marks| == |weight2Refs| == |refs| && Best(marks, weight2Refs, refs, |marks|, best)
    ensures best == LIST_TERM ==> AllMarked(marks)
    ensures best != LIST_TERM ==> best < |marks| && marks[best] == Todo && IsTodo(marks, best)
  {}

  lemma QuietIs(s: State)
    requires Quiet(s)
    ensures Fits(s) && forall r, d :: 0 <= r < |s.pending| && d in s.pending[r] ==> IsTodo(s.marks, d)
  {
    hide Fits, IsTodo;
  }

  lemma PlacedSizes(marks: seq<Mark>, status: seq<Status>, peeledRows: seq<nat>, peeledColumns: seq<nat>, deferredRows: seq<nat>)
    requires Placed(marks, status, peeledRows, peeledColumns, deferredRows)
    ensures |peeledRows| == |peeledColumns|
  {
    hide Distinct;
  }

  lemma TodoMark(marks: seq<Mark>, c: nat)
    requires IsTodo(marks, c)
    ensures c < |marks| && marks[c] == Todo
  {}

  lemma DefersSize(marks: seq<Mark>, next: seq<nat>, head: nat, list: seq<nat>)
    requires Defers(marks, next, head, list)
    ensures |next| == |marks|
  {
    hide Distinct, Chain;
  }

  // ---- between avalanches, row by row ----

  ghost function UnmarkedOf(marks: seq<Mark>, columns: seq<nat>): set<nat> {
    set c | c in columns && IsTodo(marks, c)
  }

  lemma SettledRow(marks: seq<Mark>, columns: seq<nat>, count: nat, rowMarks: RowMarks, pending: set<nat>, status: Status)
    requires RowOk(marks, columns, count, rowMarks, pending, status) && forall d :: d in pending ==> IsTodo(marks, d)
    ensures status == Live ==> |UnmarkedOf(marks, columns)| >= 2
    ensures status == Deferred ==> UnmarkedOf(marks, columns) == {}
  {
    hide Spent, IsTodo;
    if status == Live {
      assert UnmarkedOf(marks, columns) == pending;
    }
  }

  lemma PeeledRow(marks: seq<Mark>, columns: seq<seq<nat>>, status: seq<Status>, peeledRows: seq<nat>, peeledColumns: seq<nat>, deferredRows: seq<nat>, k: nat)
    requires Placed(marks, status, peeledRows, peeledColumns, deferredRows) && InOrder(marks, columns, peeledRows, peeledColumns)
    requires k < |peeledRows|
    ensures peeledRows[k] < |columns| && UnmarkedOf(marks, columns[peeledRows[k]]) == {}
  {
    hide Distinct;
    var r, c := peeledRows[k], peeledColumns[k];
    assert Solves(marks, columns[r], c, peeledColumns[..k]) && c in peeledColumns;
    forall d | d in columns[r] ensures !IsTodo(marks, d) {
      assert d in peeledColumns[..k] ==> d in peeledColumns;
    }
  }

  // Which rows are in no list.
  lemma LiveRows(marks: seq<Mark>, status: seq<Status>, peeledRows: seq<nat>, peeledColumns: seq<nat>, deferredRows: seq<nat>, r: nat)
    requires Placed(marks, status, peeledRows, peeledColumns, deferredRows) && r < |status|
    ensures status[r] == Live <==> r !in peeledRows && r !in deferredRows
    ensures status[r].Peeled? <==> r in peeledRows
    ensures status[r] == Deferred <==> r in deferredRows
  {
    hide Distinct;
  }
}
