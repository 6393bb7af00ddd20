// What the weight-2 numbers of the columns count: by them a column is chosen to
// be put off.
module PeelWeights {
  import opened Collections
  import opened Peels

  // The rows in play, but for one, that have two columns pending, one of them c.
  ghost function Twos(status: seq<Status>, pending: seq<set<nat>>, but: int, c: nat): set<nat> {
    set r: nat | r < |status| && r < |pending| && r != but && status[r] == Live && |pending[r]| == 2 && c in pending[r]
  }

  // Each unmarked column, but for one, has the number of these.
  ghost predicate Weighed(marks: seq<Mark>, weight2Refs: seq<nat>, status: seq<Status>, pending: seq<set<nat>>, but: int, except: int) {
    && |weight2Refs| == |marks| && |status| == |pending|
    && forall c :: 0 <= c < |marks| && marks[c] == Todo && c != except ==> weight2Refs[c] == |Twos(status, pending, but, c)|
  }

  // One more for each column of s.
  ghost function Bumped(weight2Refs: seq<nat>, s: seq<nat>): (t: seq<nat>)
    ensures |t| == |weight2Refs|
  {
    seq(|weight2Refs|, d requires 0 <= d < |weight2Refs| => weight2Refs[d] + if d in s then 1 else 0)
  }

  lemma BumpedNone(weight2Refs: seq<nat>)
    ensures Bumped(weight2Refs, []) == weight2Refs
  {}

  lemma BumpedSnoc(weight2Refs: seq<nat>, s: seq<nat>, c: nat)
    requires c < |weight2Refs| && c !in s
    ensures Bumped(weight2Refs, s + [c]) == Bumped(weight2Refs, s)[c := Bumped(weight2Refs, s)[c] + 1]
  {}

  lemma BumpedTwice(weight2Refs: seq<nat>, c: nat, d: nat)
    requires c < |weight2Refs| && d < |weight2Refs| && c != d
    ensures Bumped(weight2Refs, [c, d]) == weight2Refs[c := weight2Refs[c] + 1][d := weight2Refs[d] + 1]
  {}

  lemma WeighedNone(marks: seq<Mark>, weight2Refs: seq<nat>)
    requires |weight2Refs| == |marks| && forall c :: 0 <= c < |marks| ==> weight2Refs[c] == 0
    ensures Weighed(marks, weight2Refs, [], [], -1, -1)
  {}

  // A row comes in.
  lemma WeighedLonger(marks: seq<Mark>, weight2Refs: seq<nat>, status: seq<Status>, pending: seq<set<nat>>, p: set<nat>)
    requires Weighed(marks, weight2Refs, status, pending, -1, -1)
    ensures Weighed(marks, weight2Refs, status + [Live], pending + [p], |status|, -1)
  {
    forall c: nat ensures Twos(status + [Live], pending + [p], |status|, c) == Twos(status, pending, -1, c) {}
  }

  // The avalanche of column c comes by. A row that has one column left was counted
  // for it, and is about to solve it.
  lemma WeighedVisit(marks: seq<Mark>, weight2Refs: seq<nat>, columns: seq<nat>, count: nat, rowMarks: RowMarks,
                     status: seq<Status>, pending: seq<set<nat>>, r: nat, c: nat)
    requires Weighed(marks, weight2Refs, status, pending, -1, -1) && r < |pending|
    requires RowOk(marks, columns, count, rowMarks, pending[r], status[r]) && c in pending[r] && !IsTodo(marks, c)
    ensures var later := pending[r := pending[r] - {c}];
            if Less(count) == 1 then rowMarks.Unmarked? && Weighed(marks, weight2Refs, status, later, r, Other(rowMarks, c))
            else Weighed(marks, weight2Refs, status, later, r, -1)
  {
    hide Pends, NoneUnmarked;
    var later, x := pending[r := pending[r] - {c}], pending[r];
    if status[r] == Live {
      assert |x - {c}| == |x| - 1;
    } else {
      VisitSpent(marks, columns, count, rowMarks, x, status[r], c);
    }
    forall d: nat | IsTodo(marks, d) && (Less(count) == 1 && rowMarks.Unmarked? ==> d != Other(rowMarks, c))
      ensures Twos(status, later, r, d) == Twos(status, pending, -1, d)
    {
      assert r !in Twos(status, pending, -1, d);
    }
  }

  // A row that has not two columns pending, or is in a list, counts for none.
  lemma WeighedBack(marks: seq<Mark>, weight2Refs: seq<nat>, status: seq<Status>, pending: seq<set<nat>>, r: nat, except: int)
    requires Weighed(marks, weight2Refs, status, pending, r, except) && r < |status|
    requires status[r] != Live || |pending[r]| != 2
    ensures Weighed(marks, weight2Refs, status, pending, -1, except)
  {
    forall c: nat ensures Twos(status, pending, -1, c) == Twos(status, pending, r, c) {}
  }

  lemma InPlayPending(marks: seq<Mark>, columns: seq<nat>, count: nat, rowMarks: RowMarks, pending: set<nat>, status: Status)
    requires RowOk(marks, columns, count, rowMarks, pending, status) && status == Live
    ensures count == |pending| && (rowMarks.Unmarked? && count == 2 ==> pending == {rowMarks.first, rowMarks.second} && rowMarks.first != rowMarks.second)
  {}

  // One that has, counts for both of them.
  lemma WeighedPair(marks: seq<Mark>, weight2Refs: seq<nat>, status: seq<Status>, pending: seq<set<nat>>, r: nat, s: seq<nat>)
    requires Weighed(marks, weight2Refs, status, pending, r, -1) && r < |status| && status[r] == Live
    requires |s| == 2 && s[0] != s[1] && pending[r] == {s[0], s[1]}
    ensures Weighed(marks, Bumped(weight2Refs, s), status, pending, -1, -1)
  {
    assert |{s[0], s[1]}| == 2;
    forall c: nat
      ensures |Twos(status, pending, -1, c)| == |Twos(status, pending, r, c)| + if c in s then 1 else 0
    {
      assert Twos(status, pending, -1, c) == Twos(status, pending, r, c) + if c in s then {r} else {};
    }
  }

  // One that turns out to have a single unmarked column counts for it, too.
  lemma WeighedOnce(marks: seq<Mark>, weight2Refs: seq<nat>, status: seq<Status>, pending: seq<set<nat>>, r: nat, c: nat)
    requires Weighed(marks, weight2Refs, status, pending, r, -1)
    ensures Weighed(marks, Bumped(weight2Refs, [c]), status, pending, r, c)
  {}

  // The row leaves for a list; a column it solves is marked.
  lemma WeighedPeeled(marks: seq<Mark>, weight2Refs: seq<nat>, status: seq<Status>, pending: seq<set<nat>>, r: nat, c: nat)
    requires Weighed(marks, weight2Refs, status, pending, r, c) && r < |status| && c < |marks|
    ensures Weighed(marks[c := Peel], weight2Refs, status[r := Peeled(c)], pending, -1, -1)
  {
    forall d: nat ensures Twos(status[r := Peeled(c)], pending, -1, d) == Twos(status, pending, r, d) {}
  }

  lemma WeighedDeferred(marks: seq<Mark>, weight2Refs: seq<nat>, status: seq<Status>, pending: seq<set<nat>>, r: nat)
    requires Weighed(marks, weight2Refs, status, pending, r, -1) && r < |status|
    ensures Weighed(marks, weight2Refs, status[r := Deferred], pending, -1, -1)
  {
    forall d: nat ensures Twos(status[r := Deferred], pending, -1, d) == Twos(status, pending, r, d) {}
  }

  // A marked column needs no number.
  lemma WeighedMarked(marks: seq<Mark>, weight2Refs: seq<nat>, status: seq<Status>, pending: seq<set<nat>>, but: int, c: nat)
    requires Weighed(marks, weight2Refs, status, pending, but, c) && !IsTodo(marks, c)
    ensures Weighed(marks, weight2Refs, status, pending, but, -1)
  {}

  lemma WeighedNoted(marks: seq<Mark>, weight2Refs: seq<nat>, status: seq<Status>, pending: seq<set<nat>>, c: nat, x: nat)
    requires Weighed(marks, weight2Refs, status, pending, -1, -1) && c < |marks| && !IsTodo(marks, c)
    ensures Weighed(marks, weight2Refs[c := x], status, pending, -1, -1)
  {}

  lemma WeighedPutOff(marks: seq<Mark>, weight2Refs: seq<nat>, status: seq<Status>, pending: seq<set<nat>>, c: nat)
    requires Weighed(marks, weight2Refs, status, pending, -1, -1) && c < |marks|
    ensures Weighed(marks[c := Defer], weight2Refs, status, pending, -1, -1)
  {}

  lemma WeighedAt(marks: seq<Mark>, weight2Refs: seq<nat>, status: seq<Status>, pending: seq<set<nat>>, c: nat)
    requires Weighed(marks, weight2Refs, status, pending, -1, -1) && c < |marks| && marks[c] == Todo
    ensures c < |weight2Refs| && weight2Refs[c] == |Twos(status, pending, -1, c)|
  {}

  // ---- between avalanches ----

  // The rows in neither list that have exactly two unmarked columns, one of them c.
  ghost function TwoUnmarked(marks: seq<Mark>, columns: seq<seq<nat>>, peeledRows: seq<nat>, deferredRows: seq<nat>, c: nat): set<nat> {
    set r: nat | r < |columns| && r !in peeledRows && r !in deferredRows && |UnmarkedOf(marks, columns[r])| == 2 && c in UnmarkedOf(marks, columns[r])
  }

  lemma PendingUnmarked(marks: seq<Mark>, columns: seq<nat>, count: nat, rowMarks: RowMarks, pending: set<nat>, status: Status)
    requires RowOk(marks, columns, count, rowMarks, pending, status) && forall d :: d in pending ==> IsTodo(marks, d)
    ensures UnmarkedOf(marks, columns) == pending
  {
    hide InPlay, Spent, NoneUnmarked;
  }

  lemma TwosUnmarked(marks: seq<Mark>, columns: seq<seq<nat>>, counts: seq<nat>, rowMarks: seq<RowMarks>, pending: seq<set<nat>>,
                     status: seq<Status>, peeledRows: seq<nat>, peeledColumns: seq<nat>, deferredRows: seq<nat>, c: nat)
    requires RowsBut(marks, columns, counts, rowMarks, pending, status, -1) && Placed(marks, status, peeledRows, peeledColumns, deferredRows)
    requires forall r, d :: 0 <= r < |pending| && d in pending[r] ==> IsTodo(marks, d)
    ensures Twos(status, pending, -1, c) == TwoUnmarked(marks, columns, peeledRows, deferredRows, c)
  {
    hide RowOk, Placed, UnmarkedOf, IsTodo;
    forall r: nat | r < |columns|
      ensures (status[r] == Live <==> r !in peeledRows && r !in deferredRows) && UnmarkedOf(marks, columns[r]) == pending[r]
    {
      LiveRows(marks, status, peeledRows, peeledColumns, deferredRows, r);
      PendingUnmarked(marks, columns[r], counts[r], rowMarks[r], pending[r], status[r]);
    }
  }
}
