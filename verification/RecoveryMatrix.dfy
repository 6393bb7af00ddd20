// The decoder's recovery matrix: one row per recovery packet, one column per
// lost packet. It can grow after a failed elimination, which then resumes.
module RecoveryMatrix {
  import opened Gf256
  import opened LinearAlgebra
  import opened Factorization
  import opened Rank

  datatype RowInfo = RowInfo(usedForSolution: bool, matrixColumnCount: nat)

  // ---- matrices listed in pivot order ----

  lemma OrderedUpdate(rows: seq<Row>, piv: seq<nat>, q: nat, w: Row)
    requires |rows| == |piv| && IsPermutation(piv) && q < |piv|
    ensures Ordered(rows[piv[q] := w], piv) == Ordered(rows, piv)[q := w]
  {}

  lemma OrderedSwap(rows: seq<Row>, piv: seq<nat>, i: nat, j: nat)
    requires |rows| == |piv| && IsPermutation(piv) && i < |piv| && j < |piv|
    ensures IsPermutation(Swap(piv, i, j))
    ensures Ordered(rows, Swap(piv, i, j)) == Swap(Ordered(rows, piv), i, j)
  {}

  // ---- what the elimination loops keep ----

  // Rows are zero from their column count on.
  ghost predicate ZeroTails(mat: seq<Row>, info: seq<RowInfo>)
    requires |mat| == |info|
  {
    forall r, j :: 0 <= r < |mat| && info[r].matrixColumnCount <= j < |mat[r]| ==> mat[r][j] == ZERO
  }

  // The rows in their own order, each as wide as the number of losses it faced.
  ghost predicate InOrder(info: seq<RowInfo>, piv: seq<nat>, lost: seq<nat>) {
    && |piv| == |info| == |lost|
    && forall i :: 0 <= i < |piv| ==> piv[i] == i && info[i].matrixColumnCount == lost[i]
  }

  ghost predicate CountsAscend(info: seq<RowInfo>) {
    forall r, s :: 0 <= r <= s < |info| ==> info[r].matrixColumnCount <= info[s].matrixColumnCount
  }

  // Exactly the first k rows in pivot order take part in the solution.
  ghost predicate UsedUpTo(info: seq<RowInfo>, piv: seq<nat>, k: nat)
    requires |info| == |piv| && IsPermutation(piv)
  {
    forall p :: 0 <= p < |piv| ==> (info[piv[p]].usedForSolution <==> p < k)
  }

  ghost predicate SameShape(orig: seq<Row>, mat: seq<Row>, piv: seq<nat>, n: nat) {
    |orig| == |mat| == |piv| && Shaped(orig, n) && Shaped(mat, n) && IsPermutation(piv)
  }

  // k pivots found; rows at positions k + 1 .. mid eliminated with pivot k.
  ghost predicate Eliminated(orig: seq<Row>, mat: seq<Row>, piv: seq<nat>, n: nat, k: nat, mid: nat)
    requires SameShape(orig, mat, piv, n)
  {
    var a, us, lv := Ordered(orig, piv), Ordered(mat, piv), Levels(|mat|, k, mid);
    k <= n && k <= |mat| && Leveled(a, us, n, lv) && LU(a, us, n, lv) && Diagonal(us, k)
  }

  // Filling row `rem` up to the pivot row's column count keeps the tails zero.
  lemma TailsAfter(mat: seq<Row>, info: seq<RowInfo>, ge: nat, rem: nat, pivot: nat, count: nat)
    requires |mat| == |info| && ge < |mat| && rem < |mat| && ge != rem
    requires |mat[ge]| == |mat[rem]| && pivot < info[ge].matrixColumnCount <= |mat[ge]|
    requires ZeroTails(mat, info)
    requires info[rem].matrixColumnCount <= count
    requires mat[rem][pivot] != ZERO ==> info[ge].matrixColumnCount <= count
    ensures var r := EliminateRow(mat[ge], mat[rem], pivot, info[ge].matrixColumnCount);
            ZeroTails(mat[rem := r], info[rem := info[rem].(matrixColumnCount := count)])
  {
    hide Add, Mul, Div;
  }

  // The row at position q is eliminated with pivot k.
  lemma RowEliminated(orig: seq<Row>, mat: seq<Row>, next: seq<Row>, info: seq<RowInfo>, piv: seq<nat>, n: nat, k: nat, q: nat)
    requires SameShape(orig, mat, piv, n) && |info| == |mat| && k < q < |mat|
    requires ZeroTails(mat, info) && k < info[piv[k]].matrixColumnCount <= n && mat[piv[k]][k] != ZERO
    requires next == mat[piv[q] := EliminateRow(mat[piv[k]], mat[piv[q]], k, info[piv[k]].matrixColumnCount)]
    requires SameShape(orig, next, piv, n)
    requires Eliminated(orig, mat, piv, n, k, q)
    ensures Eliminated(orig, next, piv, n, k, q + 1)
  {
    hide Factored, LU, EliminateRow;
    var columnEnd := info[piv[k]].matrixColumnCount;
    var r := next[piv[q]];
    var lv := Levels(|mat|, k, q);
    OrderedUpdate(mat, piv, q, r);
    EliminateStep(Ordered(orig, piv), Ordered(mat, piv), n, lv, k, q, columnEnd);
    assert lv[q := k + 1] == Levels(|mat|, k, q + 1);
  }

  lemma StartPivot(orig: seq<Row>, mat: seq<Row>, piv: seq<nat>, n: nat, k: nat)
    requires SameShape(orig, mat, piv, n) && k < |mat| && Eliminated(orig, mat, piv, n, k, 0)
    ensures Eliminated(orig, mat, piv, n, k, k + 1)
  {
    hide LU;
    assert Levels(|mat|, k, 0) == Levels(|mat|, k, k + 1);
  }

  // Pivot k is settled and every row below it has been eliminated.
  lemma PivotSettled(orig: seq<Row>, mat: seq<Row>, piv: seq<nat>, n: nat, k: nat)
    requires SameShape(orig, mat, piv, n) && k < n && k < |mat| && Eliminated(orig, mat, piv, n, k, |mat|)
    requires mat[piv[k]][k] != ZERO
    ensures Eliminated(orig, mat, piv, n, k + 1, 0)
  {
    hide LU;
    assert Levels(|mat|, k, |mat|) == Levels(|mat|, k + 1, 0);
  }

  lemma PivotSwapped(orig: seq<Row>, mat: seq<Row>, piv: seq<nat>, n: nat, i: nat, j: nat)
    requires SameShape(orig, mat, piv, n) && i <= j < |mat| && Eliminated(orig, mat, piv, n, i, 0)
    ensures IsPermutation(Swap(piv, i, j)) && Eliminated(orig, mat, Swap(piv, i, j), n, i, 0)
  {
    hide Factored, LU;
    OrderedSwap(orig, piv, i, j);
    OrderedSwap(mat, piv, i, j);
    SwapStep(Ordered(orig, piv), Ordered(mat, piv), n, Levels(|mat|, i, 0), i, j);
  }

  // n pivots found, the last one possibly without eliminating below it.
  lemma TriangleDone(orig: seq<Row>, mat: seq<Row>, piv: seq<nat>, n: nat)
    requires SameShape(orig, mat, piv, n) && 0 < n <= |mat|
    requires || Eliminated(orig, mat, piv, n, n, 0)
             || (Eliminated(orig, mat, piv, n, n - 1, 0) && mat[piv[n - 1]][n - 1] != ZERO)
    ensures Triangular(Ordered(orig, piv), Ordered(mat, piv), n)
    ensures FullColumnRank(orig, n)
  {
    hide Factored, FullColumnRank;
    var a, us := Ordered(orig, piv), Ordered(mat, piv);
    var k := if Eliminated(orig, mat, piv, n, n, 0) then n else n - 1;
    var lv := Levels(|mat|, k, 0);
    assert LU(a, us, n, lv) && forall p :: 0 <= p < n ==> lv[p] == p;
    SolvedMeansFullRank(a, us, n);
    RankIgnoresOrder(orig, piv, n);
  }

  lemma StuckRank(orig: seq<Row>, mat: seq<Row>, piv: seq<nat>, n: nat, k: nat)
    requires SameShape(orig, mat, piv, n) && k < n && k <= |mat| && Eliminated(orig, mat, piv, n, k, 0)
    requires forall p :: k <= p < |mat| ==> mat[piv[p]][k] == ZERO
    ensures !FullColumnRank(orig, n)
  {
    hide FullColumnRank, LU;
    StuckMeansKernel(Ordered(orig, piv), Ordered(mat, piv), n, Levels(|mat|, k, 0), k);
    RankIgnoresOrder(orig, piv, n);
  }

  // ---- growing a partly eliminated matrix ----

  ghost predicate ZeroFrom(r: Row, n: nat) {
    forall j :: n <= j < |r| ==> r[j] == ZERO
  }

  lemma {:induction false} DotFromWider(r: Row, s: Row, x: Row, i: nat)
    requires |s| == |x| && i <= |r| <= |x| && s[..|r|] == r && ZeroFrom(s, |r|)
    ensures DotFrom(s, x, i) == DotFrom(r, x[..|r|], i)
    decreases |r| - i
  {
    hide Add, Mul;
    if i == |r| {
      DotFromZero(s, x, i);
    } else {
      DotFromWider(r, s, x, i + 1);
    }
  }

  lemma {:induction false} CombineWider(w: Row, v: Row, us: seq<Row>, vs: seq<Row>, x: Row, n: nat, k: nat)
    requires n <= |x| == |v| && |w| == n && v[..n] == w
    requires k <= |us| && k <= |vs| && k <= n && Shaped(us, n) && Shaped(vs, |x|)
    requires forall i :: 0 <= i < k ==> vs[i][..n] == us[i] && ZeroFrom(vs[i], n)
    ensures Combine(v, vs, x, k) == Combine(w, us, x[..n], k)
  {
    hide Add, Mul;
    if k > 0 {
      CombineWider(w, v, us, vs, x, n, k - 1);
      DotFromWider(us[k - 1], vs[k - 1], x, k - 1);
    }
  }

  // Columns that are zero in a row and in its pivot rows do not matter to it.
  lemma FactoredWider(a: Row, b: Row, w: Row, v: Row, us: seq<Row>, vs: seq<Row>, n: nat, k: nat)
    requires |a| == |w| == n <= |b| == |v| && b[..n] == a && v[..n] == w && ZeroFrom(b, n) && ZeroFrom(v, n)
    requires k <= |us| && k <= |vs| && k <= n && Shaped(us, n) && Shaped(vs, |b|)
    requires forall i :: 0 <= i < k ==> vs[i][..n] == us[i] && ZeroFrom(vs[i], n)
    requires Factored(a, w, us, k)
    ensures Factored(b, v, vs, k)
  {
    hide Add, Mul, DotFrom, Combine;
    forall x: Row | |x| == |b| ensures Dot(b, x) == Add(Combine(v, vs, x, k), DotFrom(v, x, k)) {
      DotFromWider(a, b, x, 0);
      DotFromWider(w, v, x, k);
      CombineWider(w, v, us, vs, x, n, k);
    }
  }

  // g pivots found in the first `old` rows; of the rows after them, those
  // before mid have been eliminated with pivots 0 .. i, the others with 0 .. i - 1.
  ghost function ResumeLevels(m: nat, g: nat, old_: nat, i: nat, mid: nat): (lv: seq<nat>)
    ensures |lv| == m
  {
    seq(m, p requires 0 <= p < m => if p < old_ then (if p <= g then p else g) else if p < mid then i + 1 else i)
  }

  ghost predicate Resuming(orig: seq<Row>, mat: seq<Row>, piv: seq<nat>, n: nat, g: nat, old_: nat, i: nat, mid: nat)
    requires SameShape(orig, mat, piv, n)
  {
    var a, us, lv := Ordered(orig, piv), Ordered(mat, piv), ResumeLevels(|mat|, g, old_, i, mid);
    && i <= g < old_ <= |mat| && g <= n
    && Leveled(a, us, n, lv) && LU(a, us, n, lv) && Diagonal(us, g)
    && forall p :: old_ <= p < |piv| ==> piv[p] == p
  }

  // The old rows with zeros appended, then new rows.
  ghost predicate Grown(rows: seq<Row>, more: seq<Row>, n: nat, n': nat) {
    && |rows| <= |more| && n <= n' && Shaped(rows, n) && Shaped(more, n')
    && forall r :: 0 <= r < |rows| ==> more[r][..n] == rows[r] && ZeroFrom(more[r], n)
  }

  ghost predicate GrownOrder(piv: seq<nat>, more: seq<nat>) {
    && |piv| <= |more| && more[..|piv|] == piv
    && forall p :: |piv| <= p < |more| ==> more[p] == p
  }

  function WithNewPivots(piv: seq<nat>, rows: nat): (r: seq<nat>)
    requires |piv| <= rows
    ensures |r| == rows && GrownOrder(piv, r)
  {
    piv + seq(rows - |piv|, i requires 0 <= i < rows - |piv| => |piv| + i)
  }

  function WithNewRows(info: seq<RowInfo>, lost: seq<nat>): (r: seq<RowInfo>)
    requires |info| <= |lost|
    ensures |r| == |lost| && info <= r
    ensures forall i :: |info| <= i < |lost| ==> r[i] == RowInfo(false, lost[i])
  {
    info + seq(|lost| - |info|, i requires 0 <= i < |lost| - |info| => RowInfo(false, lost[|info| + i]))
  }

  lemma GrowPermutation(piv: seq<nat>, more: seq<nat>)
    requires IsPermutation(piv) && GrownOrder(piv, more)
    ensures IsPermutation(more)
  {
    assert forall p :: 0 <= p < |piv| ==> more[p] == more[..|piv|][p];
  }

  lemma LUGrown(a: seq<Row>, us: seq<Row>, n: nat, lv: seq<nat>, b: seq<Row>, vs: seq<Row>, n': nat, lv': seq<nat>)
    requires Leveled(a, us, n, lv) && LU(a, us, n, lv)
    requires Grown(a, b, n, n') && Grown(us, vs, n, n') && |b| == |vs| == |lv'| && lv <= lv'
    requires forall p :: |a| <= p < |b| ==> lv'[p] == 0 && vs[p] == b[p]
    ensures Leveled(b, vs, n', lv') && LU(b, vs, n', lv')
  {
    hide Factored;
    forall p | 0 <= p < |b| ensures Factored(b[p], vs[p], vs, lv'[p]) {
      if p < |a| {
        FactoredWider(a[p], b[p], us[p], vs[p], us, vs, n, lv[p]);
      } else {
        FactoredStart(b[p], vs);
      }
    }
  }

  lemma GrowResuming(orig: seq<Row>, mat: seq<Row>, piv: seq<nat>, n: nat, orig': seq<Row>, mat': seq<Row>, piv': seq<nat>, n': nat, g: nat)
    requires SameShape(orig, mat, piv, n) && SameShape(orig', mat', piv', n')
    requires Grown(orig, orig', n, n') && Grown(mat, mat', n, n') && GrownOrder(piv, piv')
    requires forall r :: |mat| <= r < |mat'| ==> mat'[r] == orig'[r]
    requires Eliminated(orig, mat, piv, n, g, 0) && g < |mat|
    ensures Resuming(orig', mat', piv', n', g, |mat|, 0, 0)
  {
    hide Factored, Ordered, LU;
    var a, us := Ordered(orig, piv), Ordered(mat, piv);
    var b, vs := Ordered(orig', piv'), Ordered(mat', piv');
    var lv := ResumeLevels(|mat'|, g, |mat|, 0, 0);
    OrderedGrown(orig, piv, n, orig', piv', n');
    OrderedGrown(mat, piv, n, mat', piv', n');
    LUGrown(a, us, n, Levels(|mat|, g, 0), b, vs, n', lv);
    assert forall i :: 0 <= i < g ==> vs[i][..n][i] == us[i][i];
  }

  lemma OrderedGrown(rows: seq<Row>, piv: seq<nat>, n: nat, more: seq<Row>, piv': seq<nat>, n': nat)
    requires |rows| == |piv| && |more| == |piv'| && IsPermutation(piv) && IsPermutation(piv')
    requires Grown(rows, more, n, n') && GrownOrder(piv, piv')
    ensures Grown(Ordered(rows, piv), Ordered(more, piv'), n, n')
    ensures forall p :: |rows| <= p < |more| ==> Ordered(more, piv')[p] == more[p]
  {
    assert forall p :: 0 <= p < |piv| ==> piv'[p] == piv[..|piv|][p];
  }

  lemma RowResumed(orig: seq<Row>, mat: seq<Row>, next: seq<Row>, info: seq<RowInfo>, piv: seq<nat>, n: nat, g: nat, old_: nat, i: nat, q: nat)
    requires SameShape(orig, mat, piv, n) && |info| == |mat| && old_ <= q < |mat| && i < g < old_
    requires ZeroTails(mat, info) && i < info[piv[i]].matrixColumnCount <= n && mat[piv[i]][i] != ZERO
    requires piv[q] == q
    requires next == mat[q := EliminateRow(mat[piv[i]], mat[q], i, info[piv[i]].matrixColumnCount)]
    requires SameShape(orig, next, piv, n)
    requires Resuming(orig, mat, piv, n, g, old_, i, q)
    ensures Resuming(orig, next, piv, n, g, old_, i, q + 1)
  {
    hide Factored, LU, EliminateRow;
    var lv := ResumeLevels(|mat|, g, old_, i, q);
    OrderedUpdate(mat, piv, q, next[q]);
    EliminateStep(Ordered(orig, piv), Ordered(mat, piv), n, lv, i, q, info[piv[i]].matrixColumnCount);
    assert lv[q := i + 1] == ResumeLevels(|mat|, g, old_, i, q + 1);
  }

  lemma PivotResumed(orig: seq<Row>, mat: seq<Row>, piv: seq<nat>, n: nat, g: nat, old_: nat, i: nat)
    requires SameShape(orig, mat, piv, n) && i < g
    requires Resuming(orig, mat, piv, n, g, old_, i, |mat|)
    ensures Resuming(orig, mat, piv, n, g, old_, i + 1, old_)
  {
    hide LU;
    assert ResumeLevels(|mat|, g, old_, i, |mat|) == ResumeLevels(|mat|, g, old_, i + 1, old_);
  }

  lemma ResumeStart(orig: seq<Row>, mat: seq<Row>, piv: seq<nat>, n: nat, g: nat, old_: nat)
    requires SameShape(orig, mat, piv, n) && Resuming(orig, mat, piv, n, g, old_, 0, 0)
    ensures Resuming(orig, mat, piv, n, g, old_, 0, old_)
  {
    hide LU;
    assert ResumeLevels(|mat|, g, old_, 0, 0) == ResumeLevels(|mat|, g, old_, 0, old_);
  }

  lemma ResumeDone(orig: seq<Row>, mat: seq<Row>, piv: seq<nat>, n: nat, g: nat, old_: nat)
    requires SameShape(orig, mat, piv, n) && Resuming(orig, mat, piv, n, g, old_, g, old_)
    ensures Eliminated(orig, mat, piv, n, g, 0)
  {
    hide LU;
    assert ResumeLevels(|mat|, g, old_, g, old_) == Levels(|mat|, g, 0);
  }

  lemma ResumeFacts(orig: seq<Row>, mat: seq<Row>, piv: seq<nat>, n: nat, g: nat, old_: nat, i: nat, mid: nat)
    requires SameShape(orig, mat, piv, n) && Resuming(orig, mat, piv, n, g, old_, i, mid)
    ensures i <= g < old_ <= |mat| && g <= n
    ensures forall p :: 0 <= p < g ==> mat[piv[p]][p] != ZERO
    ensures forall p :: 0 <= p < g ==> piv[p] < old_
    ensures forall p :: old_ <= p < |piv| ==> piv[p] == p
  {
    hide LU, Leveled;
    var us := Ordered(mat, piv);
    assert forall p :: 0 <= p < g ==> us[p][p] != ZERO;
    forall p | 0 <= p < g ensures piv[p] < old_ {
      var q := piv[p];
      assert piv[q] == q ==> q == p;
    }
  }

  lemma UsedSame(info: seq<RowInfo>, piv: seq<nat>, k: nat, r: nat, count: nat)
    requires |info| == |piv| && IsPermutation(piv) && r < |info| && UsedUpTo(info, piv, k)
    ensures UsedUpTo(info[r := info[r].(matrixColumnCount := count)], piv, k)
  {}

  lemma UsedGrown(info: seq<RowInfo>, piv: seq<nat>, info': seq<RowInfo>, piv': seq<nat>, k: nat)
    requires |info| == |piv| && IsPermutation(piv) && UsedUpTo(info, piv, k) && k <= |piv|
    requires |info'| == |piv'| && IsPermutation(piv') && GrownOrder(piv, piv') && info <= info'
    requires forall r :: |info| <= r < |info'| ==> !info'[r].usedForSolution
    ensures UsedUpTo(info', piv', k)
  {
    assert forall p :: 0 <= p < |piv| ==> piv'[p] == piv[p];
  }

  lemma CountsGrown(info: seq<RowInfo>, piv: seq<nat>, lost: seq<nat>, info': seq<RowInfo>, piv': seq<nat>, lost': seq<nat>)
    requires InOrder(info, piv, lost) && info <= info' && GrownOrder(piv, piv') && |piv'| == |info'| == |lost'| && lost <= lost'
    requires forall i :: |info| <= i < |info'| ==> info'[i] == RowInfo(false, lost'[i])
    requires forall r, s :: 0 <= r <= s < |lost'| ==> lost'[r] <= lost'[s]
    ensures CountsAscend(info') && InOrder(info', piv', lost')
  {
    forall i | 0 <= i < |piv'| ensures piv'[i] == i && info'[i].matrixColumnCount == lost'[i] {
      if i < |piv| {
        assert piv'[i] == piv'[..|piv|][i];
      }
    }
  }

  lemma ShapeWithin(orig: seq<Row>, mat: seq<Row>, piv: seq<nat>, n: nat)
    requires SameShape(orig, mat, piv, n)
    ensures forall i :: 0 <= i < |piv| ==> piv[i] < |mat| && |mat[piv[i]]| == n
  {}

  // Nothing was eliminated: the matrix grows as the generated one does.
  lemma SameGrown(orig: seq<Row>, mat': seq<Row>, gen: seq<Row>, n: nat, added: seq<Row>)
    requires |mat'| == |gen| == |added| && |orig| <= |gen|
    requires forall r :: 0 <= r < |added| ==> mat'[r] == if r < |orig| then orig[r] + added[r] else added[r]
    requires forall r :: 0 <= r < |gen| ==> gen[r] == if r < |orig| then orig[r] + added[r] else added[r]
    ensures mat' == gen
  {}

  lemma TailsGrown(mat: seq<Row>, info: seq<RowInfo>, n: nat, gen: seq<Row>, lost: seq<nat>, mat': seq<Row>, info': seq<RowInfo>, n': nat)
    requires |mat| == |info| && ZeroTails(mat, info) && Shaped(mat, n) && |gen| == |lost| == |mat'| == |info'|
    requires |mat| <= |gen| && n <= n' && Shaped(gen, n') && info <= info'
    requires forall r :: 0 <= r < |info| ==> info[r].matrixColumnCount <= n
    requires forall r :: 0 <= r < |gen| ==> ZeroFrom(gen[r], lost[r])
    requires forall r :: 0 <= r < |mat| ==> ZeroFrom(gen[r], n) && mat'[r] == mat[r] + gen[r][n..]
    requires forall r :: |mat| <= r < |mat'| ==> mat'[r] == gen[r] && info'[r].matrixColumnCount == lost[r]
    ensures Shaped(mat', n') && ZeroTails(mat', info') && Grown(mat, mat', n, n')
  {}

  // Nothing eliminated yet: growing leaves nothing eliminated.
  lemma GrowFresh(orig: seq<Row>, mat: seq<Row>, piv: seq<nat>, n: nat, orig': seq<Row>, mat': seq<Row>, piv': seq<nat>, n': nat)
    requires SameShape(orig, mat, piv, n) && SameShape(orig', mat', piv', n')
    requires Grown(orig, orig', n, n') && Grown(mat, mat', n, n') && GrownOrder(piv, piv')
    requires forall r :: |mat| <= r < |mat'| ==> mat'[r] == orig'[r]
    requires Eliminated(orig, mat, piv, n, 0, 0)
    ensures Eliminated(orig', mat', piv', n', 0, 0)
  {
    hide Factored, Ordered, LU;
    var a, us := Ordered(orig, piv), Ordered(mat, piv);
    var b, vs := Ordered(orig', piv'), Ordered(mat', piv');
    OrderedGrown(orig, piv, n, orig', piv', n');
    OrderedGrown(mat, piv, n, mat', piv', n');
    LUGrown(a, us, n, Levels(|mat|, 0, 0), b, vs, n', Levels(|mat'|, 0, 0));
  }

  // Matrix rows generated for more columns and more recovery packets agree
  // with the ones there and add nothing to the old rows.
  ghost predicate Generates(orig: seq<Row>, lost: seq<nat>, n: nat, gen: seq<Row>, lost': seq<nat>, n': nat) {
    && |orig| == |lost| && |gen| == |lost'| && lost <= lost'
    && Grown(orig, gen, n, n')
    && forall r :: 0 <= r < |gen| ==> lost'[r] <= n' && ZeroFrom(gen[r], lost'[r])
  }

  lemma GeneratedFacts(orig: seq<Row>, lost: seq<nat>, n: nat, gen: seq<Row>, lost': seq<nat>, n': nat)
    requires Generates(orig, lost, n, gen, lost', n')
    ensures |orig| == |lost| <= |gen| == |lost'| && lost <= lost' && n <= n' && Shaped(gen, n') && Grown(orig, gen, n, n')
    ensures forall r :: 0 <= r < |gen| ==> lost'[r] <= n' && ZeroFrom(gen[r], lost'[r])
    ensures forall r :: 0 <= r < |orig| ==> ZeroFrom(gen[r], n) && gen[r] == orig[r] + gen[r][n..]
  {
    hide ZeroFrom;
    forall r | 0 <= r < |orig| ensures gen[r] == orig[r] + gen[r][n..] {
      assert gen[r] == gen[r][..n] + gen[r][n..];
    }
  }

  // ---- the elimination without pivoting, as a function of the matrix ----

  // Column k cleared below row k; lost[k] columns of row k may be nonzero.
  function ClearColumn(mat: seq<Row>, lost: seq<nat>, n: nat, k: nat): (r: seq<Row>)
    requires Shaped(mat, n) && |lost| == |mat| && k < |mat|
    ensures Shaped(r, n) && |r| == |mat|
  {
    seq(|mat|, p requires 0 <= p < |mat| =>
      if p <= k || lost[k] <= k || n < lost[k] then mat[p] else EliminateRow(mat[k], mat[p], k, lost[k]))
  }

  function Stage(mat: seq<Row>, lost: seq<nat>, n: nat, k: nat): (r: seq<Row>)
    requires Shaped(mat, n) && |lost| == |mat| && k <= |mat|
    ensures Shaped(r, n) && |r| == |mat|
  {
    if k == 0 then mat else ClearColumn(Stage(mat, lost, n, k - 1), lost, n, k - 1)
  }

  // No pivot is zero in row order.
  ghost predicate PivotsInOrder(mat: seq<Row>, lost: seq<nat>, n: nat)
    requires Shaped(mat, n) && |lost| == |mat| && n <= |mat|
  {
    forall k :: 0 <= k < n ==> Stage(mat, lost, n, k)[k][k] != ZERO
  }

  class RecoveryMatrixState {
    var Rows: seq<RowInfo>
    var Matrix: seq<Row>
    var Columns: nat
    var Pivots: seq<nat>
    var GEResumePivot: nat
    ghost var Original: seq<Row>    // the matrix as generated
    ghost var LostCounts: seq<nat>  // losses up to the end of each row's packet

    ghost predicate Shape()
      reads this
    {
      && SameShape(Original, Matrix, Pivots, Columns)
      && |Rows| == |Matrix| == |LostCounts|
      && (forall r :: 0 <= r < |Rows| ==> Rows[r].matrixColumnCount <= Columns)
      && ZeroTails(Matrix, Rows)
    }

    ghost predicate Found(k: nat, mid: nat)
      reads this
    {
      && Shape()
      && Eliminated(Original, Matrix, Pivots, Columns, k, mid)
    }

    ghost predicate PivotLive(k: nat)
      reads this
    {
      k < |Pivots| && Pivots[k] < |Matrix| && k < |Matrix[Pivots[k]]| && Matrix[Pivots[k]][k] != ZERO
    }

    ghost predicate IdentityOrder()
      reads this
    {
      CountsAscend(Rows) && InOrder(Rows, Pivots, LostCounts)
    }

    ghost predicate Resumable()
      reads this
    {
      var g := GEResumePivot;
      && Found(g, 0)
      && UsedUpTo(Rows, Pivots, g)
      && (g > 0 ==> g < Columns && g < |Rows| && Matrix[Pivots[g]][g] == ZERO)
      && (g == 0 ==> IdentityOrder() && Matrix == Original)
    }

    // The matrix is in upper triangular form, multipliers stored below it.
    ghost predicate Solved()
      reads this
    {
      && Shape()
      && UsedUpTo(Rows, Pivots, Columns)
      && Triangular(Ordered(Original, Pivots), Ordered(Matrix, Pivots), Columns)
    }

    // Eliminates matrix row `rem` with matrix row `ge`; true if it changed.
    method EliminateInPlace(ge: nat, rem: nat, pivot: nat, columnEnd: nat) returns (filled: bool)
      requires ge < |Matrix| && rem < |Matrix|
      requires |Matrix[ge]| == |Matrix[rem]| && pivot < columnEnd <= |Matrix[ge]|
      modifies this`Matrix
      ensures Matrix == old(Matrix)[rem := EliminateRow(old(Matrix)[ge], old(Matrix)[rem], pivot, columnEnd)]
      ensures filled <==> old(Matrix)[rem][pivot] != ZERO
    {
      filled := Matrix[rem][pivot] != ZERO;
      Matrix := Matrix[rem := EliminateRow(Matrix[ge], Matrix[rem], pivot, columnEnd)];
    }

    constructor ()
      ensures Resumable() && Columns == 0 && Rows == [] && Original == [] && LostCounts == []
    {
      Rows, Matrix, Pivots, Columns, GEResumePivot := [], [], [], 0, 0;
      Original, LostCounts := [], [];
    }

    method Reset()
      modifies this
      ensures Resumable() && Columns == 0 && Rows == [] && Original == [] && LostCounts == []
    {
      Rows, Matrix, Pivots, Columns, GEResumePivot := [], [], [], 0, 0;
      Original, LostCounts := [], [];
    }

    // Extends the matrix to the given rows and columns, and carries the
    // elimination done so far over to the new rows.  `added` are the values of
    // the new columns in the old rows and of all columns in the new rows.
    method GenerateMatrix(added: seq<Row>, lostCounts: seq<nat>, columns: nat, ghost generated: seq<Row>)
      requires Resumable()
      requires Generates(Original, LostCounts, Columns, generated, lostCounts, columns)
      requires |added| == |generated|
      requires forall r :: 0 <= r < |added| ==> added[r] == if r < |Rows| then generated[r][Columns..] else generated[r]
      requires forall r, s :: 0 <= r <= s < |lostCounts| ==> lostCounts[r] <= lostCounts[s]
      modifies this
      ensures Resumable() && GEResumePivot == old(GEResumePivot)
      ensures Original == generated && LostCounts == lostCounts && Columns == columns && |Rows| == |generated|
    {
      hide *;
      ResumableParts();
      var oldRows := |Rows|;
      ghost var orig, mat, piv, n, info, lost := Original, Matrix, Pivots, Columns, Rows, LostCounts;
      GeneratedFacts(orig, lost, n, generated, lostCounts, columns);
      GrowRows(added, lostCounts, columns, generated);
      if GEResumePivot == 0 {
        CountsGrown(info, piv, lost, Rows, Pivots, lostCounts);
        IdentityWhole();
        SameGrown(orig, Matrix, Original, n, added);
      }
      Carry(oldRows, orig, mat, piv, n);
      ResumableParts();
    }

    method GrowRows(added: seq<Row>, lostCounts: seq<nat>, columns: nat, ghost generated: seq<Row>)
      requires Shape() && UsedUpTo(Rows, Pivots, GEResumePivot) && GEResumePivot <= |Pivots|
      requires Generates(Original, LostCounts, Columns, generated, lostCounts, columns)
      requires |added| == |generated|
      requires forall r :: 0 <= r < |added| ==> added[r] == if r < |Rows| then generated[r][Columns..] else generated[r]
      modifies this`Matrix, this`Rows, this`Pivots, this`Columns, this`Original, this`LostCounts
      ensures Shape() && UsedUpTo(Rows, Pivots, GEResumePivot)
      ensures Original == generated && LostCounts == lostCounts && Columns == columns
      ensures old(Rows) <= Rows && |Rows| == |generated| == |Matrix| == |Pivots| && GrownOrder(old(Pivots), Pivots)
      ensures forall i :: |old(Rows)| <= i < |Rows| ==> Rows[i] == RowInfo(false, lostCounts[i])
      ensures Grown(old(Matrix), Matrix, old(Columns), Columns)
      ensures forall r :: 0 <= r < |added| ==> Matrix[r] == if r < |old(Matrix)| then old(Matrix)[r] + added[r] else added[r]
    {
      hide Eliminated, UsedUpTo, ZeroTails, ZeroFrom, WithNewPivots, WithNewRows, Generates, Grown;
      ghost var mat, info, piv, n := Matrix, Rows, Pivots, Columns;
      GeneratedFacts(Original, LostCounts, n, generated, lostCounts, columns);
      FillMatrix(added, |Rows|);
      Rows := WithNewRows(Rows, lostCounts);
      Pivots := WithNewPivots(Pivots, |added|);
      Columns, Original, LostCounts := columns, generated, lostCounts;
      GrowPermutation(piv, Pivots);
      TailsGrown(mat, info, n, generated, lostCounts, Matrix, Rows, Columns);
      UsedGrown(info, piv, Rows, Pivots, GEResumePivot);
    }

    lemma ResumableParts()
      requires Resumable()
      ensures Shape() && SameShape(Original, Matrix, Pivots, Columns) && |Rows| == |Matrix| == |LostCounts| == |Original| == |Pivots|
      ensures Eliminated(Original, Matrix, Pivots, Columns, GEResumePivot, 0) && UsedUpTo(Rows, Pivots, GEResumePivot)
      ensures GEResumePivot <= |Pivots|
      ensures GEResumePivot > 0 ==>
                && GEResumePivot < Columns && GEResumePivot < |Rows| && Pivots[GEResumePivot] < |Matrix|
                && GEResumePivot < |Matrix[Pivots[GEResumePivot]]| && Matrix[Pivots[GEResumePivot]][GEResumePivot] == ZERO
      ensures GEResumePivot == 0 ==> CountsAscend(Rows) && InOrder(Rows, Pivots, LostCounts) && Matrix == Original
    {
      hide UsedUpTo, ZeroTails, Shaped, Eliminated, IsPermutation, CountsAscend, InOrder;
      ShapeWithin(Original, Matrix, Pivots, Columns);
    }

    lemma IdentityWhole()
      requires CountsAscend(Rows) && InOrder(Rows, Pivots, LostCounts)
      ensures IdentityOrder()
    {
      hide CountsAscend;
    }

    // Carries the elimination found in `mat` over to the grown matrix.
    method Carry(oldRows: nat, ghost orig: seq<Row>, ghost mat: seq<Row>, ghost piv: seq<nat>, ghost n: nat)
      requires Shape() && UsedUpTo(Rows, Pivots, GEResumePivot) && oldRows == |mat|
      requires SameShape(orig, mat, piv, n) && Eliminated(orig, mat, piv, n, GEResumePivot, 0)
      requires Grown(orig, Original, n, Columns) && Grown(mat, Matrix, n, Columns) && GrownOrder(piv, Pivots)
      requires forall r :: |mat| <= r < |Matrix| ==> Matrix[r] == Original[r]
      requires GEResumePivot > 0 ==> GEResumePivot < n && GEResumePivot < |mat| && mat[piv[GEResumePivot]][GEResumePivot] == ZERO
      requires GEResumePivot == 0 ==> IdentityOrder() && Matrix == Original
      modifies this`Matrix, this`Rows
      ensures Resumable()
    {
      hide Eliminated, Resuming, UsedUpTo, ZeroTails;
      if GEResumePivot > 0 {
        GrowResuming(orig, mat, piv, n, Original, Matrix, Pivots, Columns, GEResumePivot);
        ghost var r := piv[GEResumePivot];
        ResumeGE(oldRows);
        assert Matrix[..oldRows][r] == Matrix[r];
      } else {
        GrowFresh(orig, mat, piv, n, Original, Matrix, Pivots, Columns);
      }
    }

    // Writes the new values right of the old rows and below them.
    method FillMatrix(added: seq<Row>, oldRows: nat)
      requires |Matrix| == oldRows <= |added|
      modifies this`Matrix
      ensures |Matrix| == |added|
      ensures forall r :: 0 <= r < |added| ==> Matrix[r] == if r < oldRows then old(Matrix)[r] + added[r] else added[r]
    {
      for i := 0 to |added|
        invariant |Matrix| == if i < oldRows then oldRows else i
        invariant forall r :: 0 <= r < i ==> Matrix[r] == if r < oldRows then old(Matrix)[r] + added[r] else added[r]
        invariant forall r :: i <= r < oldRows ==> Matrix[r] == old(Matrix)[r]
      {
        if i < oldRows {
          Matrix := Matrix[i := Matrix[i] + added[i]];
        } else {
          Matrix := Matrix + [added[i]];
        }
      }
    }

    // Eliminates the rows from oldRows on with the pivots found so far.
    method ResumeGE(oldRows: nat)
      requires Shape() && 0 < GEResumePivot
      requires Resuming(Original, Matrix, Pivots, Columns, GEResumePivot, oldRows, 0, 0)
      requires UsedUpTo(Rows, Pivots, GEResumePivot)
      modifies this`Matrix, this`Rows
      ensures Found(GEResumePivot, 0) && UsedUpTo(Rows, Pivots, GEResumePivot)
      ensures oldRows <= |Matrix| == |old(Matrix)| && Matrix[..oldRows] == old(Matrix)[..oldRows]
    {
      hide Eliminated, Resuming, UsedUpTo, ZeroTails;
      var g := GEResumePivot;
      ResumeFacts(Original, Matrix, Pivots, Columns, g, oldRows, 0, 0);
      ResumeStart(Original, Matrix, Pivots, Columns, g, oldRows);
      for pivot_i := 0 to g
        invariant Shape() && UsedUpTo(Rows, Pivots, g)
        invariant Resuming(Original, Matrix, Pivots, Columns, g, oldRows, pivot_i, oldRows)
        invariant |Matrix| == |old(Matrix)| && Matrix[..oldRows] == old(Matrix)[..oldRows]
      {
        ResumePivot(oldRows, pivot_i);
        PivotResumed(Original, Matrix, Pivots, Columns, g, oldRows, pivot_i);
      }
      ResumeDone(Original, Matrix, Pivots, Columns, g, oldRows);
    }

    // The inner loop of ResumeGE.
    method ResumePivot(oldRows: nat, pivot_i: nat)
      requires Shape() && pivot_i < GEResumePivot
      requires Resuming(Original, Matrix, Pivots, Columns, GEResumePivot, oldRows, pivot_i, oldRows)
      requires UsedUpTo(Rows, Pivots, GEResumePivot)
      modifies this`Matrix, this`Rows
      ensures Shape() && UsedUpTo(Rows, Pivots, GEResumePivot)
      ensures Resuming(Original, Matrix, Pivots, Columns, GEResumePivot, oldRows, pivot_i, |Matrix|)
      ensures oldRows <= |Matrix| == |old(Matrix)| && Matrix[..oldRows] == old(Matrix)[..oldRows]
    {
      hide Resuming, EliminateRow, UsedUpTo;
      var g := GEResumePivot;
      ResumeFacts(Original, Matrix, Pivots, Columns, g, oldRows, pivot_i, oldRows);
      var row := Pivots[pivot_i];
      var pivotColumnCount := Rows[row].matrixColumnCount;
      for newRow := oldRows to |Rows|
        invariant |Rows| == |old(Rows)| && Shape() && UsedUpTo(Rows, Pivots, g)
        invariant Resuming(Original, Matrix, Pivots, Columns, g, oldRows, pivot_i, newRow)
        invariant Matrix[..oldRows] == old(Matrix)[..oldRows]
        invariant Matrix[row][pivot_i] != ZERO && Rows[row].matrixColumnCount == pivotColumnCount
      {
        var count := Rows[newRow].matrixColumnCount;
        if Matrix[newRow][pivot_i] != ZERO && count < pivotColumnCount {
          count := pivotColumnCount;
        }
        TailsAfter(Matrix, Rows, row, newRow, pivot_i, count);
        ghost var was, info := Matrix, Rows;
        var filled := EliminateInPlace(row, newRow, pivot_i, pivotColumnCount);
        RowResumed(Original, was, Matrix, Rows, Pivots, Columns, g, oldRows, pivot_i, newRow);
        if filled && Rows[newRow].matrixColumnCount < pivotColumnCount {
          Rows := Rows[newRow := Rows[newRow].(matrixColumnCount := pivotColumnCount)];
          UsedSame(info, Pivots, g, newRow, pivotColumnCount);
        }
      }
    }

    method GaussianElimination() returns (ok: bool)
      requires Resumable() && 0 < Columns <= |Rows|
      modifies this
      ensures Original == old(Original) && LostCounts == old(LostCounts) && Columns == old(Columns) && |Rows| == old(|Rows|)
      ensures ok <==> FullColumnRank(Original, Columns)
      ensures ok ==> Solved()
      ensures !ok ==> Resumable()
      ensures old(GEResumePivot) == 0 && PivotsInOrder(Original, LostCounts, Columns) ==> ok && Pivots == old(Pivots)
    {
      hide FullColumnRank, Triangular, Eliminated, UsedUpTo, ZeroTails, ClearColumn;
      if GEResumePivot > 0 {
        ok := PivotedGaussianElimination(GEResumePivot);
        return;
      }
      for pivot_i := 0 to Columns
        invariant Original == old(Original) && LostCounts == old(LostCounts) && Columns == old(Columns)
        invariant Found(pivot_i, 0) && UsedUpTo(Rows, Pivots, pivot_i) && IdentityOrder()
        invariant Pivots == old(Pivots) && GEResumePivot == 0
        invariant Matrix == Stage(Original, LostCounts, Columns, pivot_i)
        invariant pivot_i == 0 ==> Rows == old(Rows)
      {
        if Matrix[pivot_i][pivot_i] == ZERO {
          ok := PivotedGaussianElimination(pivot_i);
          return;
        }
        UseRow(pivot_i);
        EliminateBelowUnpivoted(pivot_i);
        PivotSettled(Original, Matrix, Pivots, Columns, pivot_i);
      }
      TriangleDone(Original, Matrix, Pivots, Columns);
      ok := true;
    }

    // Marks the row at position k as part of the solution.
    method UseRow(k: nat)
      requires Found(k, 0) && UsedUpTo(Rows, Pivots, k) && k < |Rows|
      modifies this`Rows
      ensures Found(k, 0) && UsedUpTo(Rows, Pivots, k + 1) && |Rows| == old(|Rows|)
      ensures forall r :: 0 <= r < |Rows| ==> Rows[r].matrixColumnCount == old(Rows)[r].matrixColumnCount
    {
      hide Eliminated;
      var row := Pivots[k];
      Rows := Rows[row := Rows[row].(usedForSolution := true)];
    }

    // The unpivoted elimination's inner loop. It never grows a row's column
    // count, which is right because the counts ascend.
    method EliminateBelowUnpivoted(pivot_i: nat)
      requires Found(pivot_i, 0) && UsedUpTo(Rows, Pivots, pivot_i + 1) && IdentityOrder()
      requires pivot_i < |Rows| && pivot_i < Columns && PivotLive(pivot_i)
      modifies this`Matrix
      ensures Found(pivot_i, |Rows|) && PivotLive(pivot_i)
      ensures old(Shape()) && Matrix == ClearColumn(old(Matrix), LostCounts, Columns, pivot_i)
    {
      hide Eliminated, EliminateRow, UsedUpTo;
      var pivotColumnCount := Rows[pivot_i].matrixColumnCount;
      StartPivot(Original, Matrix, Pivots, Columns, pivot_i);
      for pivot_j := pivot_i + 1 to |Rows|
        invariant Found(pivot_i, pivot_j) && PivotLive(pivot_i)
        invariant forall p :: 0 <= p < |Matrix| ==>
          Matrix[p] == (if pivot_i < p < pivot_j then ClearColumn(old(Matrix), LostCounts, Columns, pivot_i)[p] else old(Matrix)[p])
      {
        TailsAfter(Matrix, Rows, pivot_i, pivot_j, pivot_i, Rows[pivot_j].matrixColumnCount);
        ghost var was := Matrix;
        var filled := EliminateInPlace(pivot_i, pivot_j, pivot_i, pivotColumnCount);
        assert Rows[pivot_j := Rows[pivot_j]] == Rows;
        RowEliminated(Original, was, Matrix, Rows, Pivots, Columns, pivot_i, pivot_j);
      }
    }

    // Resumes at a pivot column in which the row at position `start` is zero.
    method PivotedGaussianElimination(start: nat) returns (ok: bool)
      requires Found(start, 0) && start < Columns <= |Rows|
      requires UsedUpTo(Rows, Pivots, start)
      requires Matrix[Pivots[start]][start] == ZERO
      requires start == 0 ==> IdentityOrder() && Matrix == Original
      modifies this
      ensures Original == old(Original) && LostCounts == old(LostCounts) && Columns == old(Columns)
      ensures ok <==> FullColumnRank(Original, Columns)
      ensures ok ==> Solved()
      ensures !ok ==> Resumable()
    {
      hide FullColumnRank, Triangular, Eliminated, UsedUpTo, ZeroTails;
      var pivot_i := start;
      var pivot_j := start + 1;
      while pivot_i < Columns
        invariant Original == old(Original) && LostCounts == old(LostCounts) && Columns == old(Columns)
        invariant start <= pivot_i <= Columns
        invariant Found(pivot_i, 0) && UsedUpTo(Rows, Pivots, pivot_i)
        invariant pivot_i == start ==> Rows == old(Rows) && Pivots == old(Pivots) && Matrix == old(Matrix)
        invariant pivot_i < Columns ==>
                    pivot_j == pivot_i || (pivot_j == pivot_i + 1 && Matrix[Pivots[pivot_i]][pivot_i] == ZERO)
      {
        while pivot_j < |Rows| && Matrix[Pivots[pivot_j]][pivot_i] == ZERO
          invariant pivot_i <= pivot_j <= |Rows|
          invariant forall p :: pivot_i <= p < pivot_j ==> Matrix[Pivots[p]][pivot_i] == ZERO
        {
          pivot_j := pivot_j + 1;
        }
        if pivot_j == |Rows| {
          StuckRank(Original, Matrix, Pivots, Columns, pivot_i);
          // The next attempt takes it up from this pivot on.
          GEResumePivot := pivot_i;
          ok := false;
          return;
        }
        TakePivot(pivot_i, pivot_j);
        if pivot_i >= Columns - 1 {
          TriangleDone(Original, Matrix, Pivots, Columns);
          ok := true;
          return;
        }
        EliminateBelow(pivot_i);
        PivotSettled(Original, Matrix, Pivots, Columns, pivot_i);
        pivot_i := pivot_i + 1;
        pivot_j := pivot_i;
      }
      TriangleDone(Original, Matrix, Pivots, Columns);
      ok := true;
    }

    // Swaps the row at position pivot_j up to be pivot row pivot_i.
    method TakePivot(pivot_i: nat, pivot_j: nat)
      requires Found(pivot_i, 0) && pivot_i <= pivot_j < |Rows| && pivot_i < Columns
      requires Matrix[Pivots[pivot_j]][pivot_i] != ZERO
      requires UsedUpTo(Rows, Pivots, pivot_i)
      modifies this`Pivots, this`Rows
      ensures |Rows| == old(|Rows|)
      ensures Found(pivot_i, 0) && UsedUpTo(Rows, Pivots, pivot_i + 1) && PivotLive(pivot_i)
    {
      hide Eliminated;
      PivotSwapped(Original, Matrix, Pivots, Columns, pivot_i, pivot_j);
      Pivots := Pivots[pivot_i := Pivots[pivot_j]][pivot_j := Pivots[pivot_i]];
      UseRow(pivot_i);
    }

    // The pivoted elimination's inner loop: clears column pivot_i in all later rows.
    method EliminateBelow(pivot_i: nat)
      requires Found(pivot_i, 0) && pivot_i < |Rows| && pivot_i < Columns && PivotLive(pivot_i)
      requires UsedUpTo(Rows, Pivots, pivot_i + 1)
      modifies this`Matrix, this`Rows
      ensures |Rows| == old(|Rows|)
      ensures Found(pivot_i, |Rows|) && UsedUpTo(Rows, Pivots, pivot_i + 1)
      ensures PivotLive(pivot_i)
    {
      hide Eliminated, EliminateRow, Add, Mul, Div;
      var row := Pivots[pivot_i];
      var pivotColumnCount := Rows[row].matrixColumnCount;
      StartPivot(Original, Matrix, Pivots, Columns, pivot_i);
      for pivot_k := pivot_i + 1 to |Rows|
        invariant |Rows| == old(|Rows|)
        invariant Found(pivot_i, pivot_k) && UsedUpTo(Rows, Pivots, pivot_i + 1)
        invariant Matrix[row][pivot_i] != ZERO && Rows[row].matrixColumnCount == pivotColumnCount
      {
        var rem := Pivots[pivot_k];
        var count := Rows[rem].matrixColumnCount;
        if Matrix[rem][pivot_i] != ZERO && count < pivotColumnCount {
          count := pivotColumnCount;
        }
        TailsAfter(Matrix, Rows, row, rem, pivot_i, count);
        ghost var was := Matrix;
        var filled := EliminateInPlace(row, rem, pivot_i, pivotColumnCount);
        RowEliminated(Original, was, Matrix, Rows, Pivots, Columns, pivot_i, pivot_k);
        if filled && Rows[rem].matrixColumnCount < pivotColumnCount {
          Rows := Rows[rem := Rows[rem].(matrixColumnCount := pivotColumnCount)];
        }
      }
    }
  }
}
