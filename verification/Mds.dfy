// Parity and Cauchy packets are a perfect code: as many of them as there are
// losses in the window they protect recover these losses.
module Mds {
  import opened Columns
  import opened Gf256
  import opened LinearAlgebra
  import opened Coefficients
  import opened Rank
  import opened RecoveryMatrix
  import opened Cauchy
  import opened Losses
  import opened Recoveries
  import opened Regions

  // ---- no zero pivot means full rank ----

  lemma KernelStep(ge: Row, rem: Row, k: nat, x: Row)
    requires k < |x| == |ge| == |rem| && ge[k] != ZERO
    requires DotFrom(ge, x, k) == ZERO && DotFrom(rem, x, k) == ZERO
    ensures DotFrom(EliminateRow(ge, rem, k, |x|), x, k + 1) == ZERO
  {
    hide Add, Mul, Div, EliminateRow;
    var r := EliminateRow(ge, rem, k, |x|);
    RowAfter(rem, ge, k, |x|);
    DotFromMulAdd(r, rem, ge, r[k], x, k + 1);
    var d, e, y := DotFrom(rem, x, k + 1), DotFrom(ge, x, k + 1), r[k];
    assert DotFrom(rem, x, k) == Add(Mul(rem[k], x[k]), d);
    assert DotFrom(ge, x, k) == Add(Mul(ge[k], x[k]), e);
    CancelStep(rem[k], ge[k], y, x[k], d, e);
  }

  lemma CancelStep(v: Gf, p: Gf, y: Gf, xk: Gf, d: Gf, e: Gf)
    requires Mul(y, p) == v && Add(Mul(v, xk), d) == ZERO && Add(Mul(p, xk), e) == ZERO
    ensures Add(d, Mul(y, e)) == ZERO
  {
    hide Add, Mul;
    SumZero(Mul(v, xk), d);
    SumZero(Mul(p, xk), e);
    MulAssoc(y, p, xk);
    AddSelf(Mul(v, xk));
  }

  lemma SumZero(a: Gf, b: Gf)
    requires Add(a, b) == ZERO
    ensures a == b
  {
    hide Add;
    AddCancel(a, b);
    AddZero(a);
  }

  lemma {:induction false} StageKernel(mat: seq<Row>, lost: seq<nat>, n: nat, k: nat, x: Row)
    requires Shaped(mat, n) && |lost| == |mat| && k <= n <= |mat| && |x| == n && InKernel(mat, x)
    requires PivotsInOrder(mat, lost, n) && forall r :: 0 <= r < |lost| ==> lost[r] == n
    ensures forall p :: 0 <= p < |mat| ==> DotFrom(Stage(mat, lost, n, k)[p], x, if p < k then p else k) == ZERO
  {
    hide Add, Mul, DotFrom, EliminateRow;
    if k > 0 {
      StageKernel(mat, lost, n, k - 1, x);
      var s := Stage(mat, lost, n, k - 1);
      forall p | 0 <= p < |mat| ensures DotFrom(Stage(mat, lost, n, k)[p], x, if p < k then p else k) == ZERO {
        if p >= k {
          assert DotFrom(s[k - 1], x, k - 1) == ZERO;
          KernelStep(s[k - 1], s[p], k - 1, x);
        }
      }
    }
  }

  lemma {:induction false} StageDone(mat: seq<Row>, lost: seq<nat>, n: nat, k: nat, p: nat)
    requires Shaped(mat, n) && |lost| == |mat| && p < k <= |mat|
    ensures Stage(mat, lost, n, k)[p] == Stage(mat, lost, n, p)[p]
  {
    hide EliminateRow;
    if p < k - 1 {
      StageDone(mat, lost, n, k - 1, p);
    }
  }

  lemma PivotsMeanFullRank(mat: seq<Row>, lost: seq<nat>, n: nat)
    requires Shaped(mat, n) && |lost| == |mat| && n <= |mat|
    requires PivotsInOrder(mat, lost, n) && forall r :: 0 <= r < |lost| ==> lost[r] == n
    ensures FullColumnRank(mat, n)
  {
    hide Add, Mul, DotFrom, Stage;
    var us := Stage(mat, lost, n, n);
    forall p | 0 <= p < n ensures us[p][p] != ZERO {
      StageDone(mat, lost, n, n, p);
    }
    forall x: Row | |x| == n && InKernel(mat, x) ensures IsZero(x) {
      StageKernel(mat, lost, n, n, x);
      BackToZero(us, n, x, 0);
    }
  }

  // ---- parity and Cauchy rows over the losses of a window ----

  function RowPoint(row: nat): Point
    requires row <= CAUCHY_MAX_ROWS
  {
    if row == 0 then Parity else At(Byte(row - 1 + CAUCHY_MAX_COLUMNS))
  }

  function ColumnPoint(a: nat): Gf {
    Byte(Wrap(a) % CAUCHY_MAX_COLUMNS)
  }

  // A parity or Cauchy packet over all of the given losses.
  ghost predicate Covers(r: Recovery, base: nat, lost: seq<nat>) {
    && ValidMetadata(r.metadata) && !IsSiamese(r) && 0 <= StartOf(r, base) && r.metadata.columnStart == Wrap(StartOf(r, base))
    && forall j :: 0 <= j < |lost| ==> StartOf(r, base) <= lost[j] < StartOf(r, base) + r.metadata.sumCount
  }

  ghost predicate DistinctRows(recs: seq<Recovery>, k: nat) {
    k <= |recs| && forall p, q :: 0 <= p < q < k ==> recs[p].metadata.row != recs[q].metadata.row
  }

  lemma CoveredEntry(r: Recovery, raw: Draws, base: nat, lost: seq<nat>, j: nat)
    requires Covers(r, base, lost) && j < |lost|
    ensures EntryRow(raw, r.metadata, StartOf(r, base), lost)[j] == Weight(RowPoint(r.metadata.row), ColumnPoint(lost[j]))
  {
    hide Add, Inv, Byte;
    AddWrapped(lost[j] - StartOf(r, base), StartOf(r, base));
  }

  // Two losses less than 64 columns apart have different column points.
  lemma ColumnsApart(a: nat, b: nat)
    requires a < b < a + CAUCHY_MAX_COLUMNS
    ensures ColumnPoint(a) != ColumnPoint(b)
  {
    hide Byte;
    WrapLane(a);
    WrapLane(b);
    ByteInjective(Wrap(a) % CAUCHY_MAX_COLUMNS, Wrap(b) % CAUCHY_MAX_COLUMNS);
  }

  lemma RowsApart(p: nat, q: nat)
    requires p <= CAUCHY_MAX_ROWS && q <= CAUCHY_MAX_ROWS && p != q
    ensures RowPoint(p) != RowPoint(q)
  {
    hide Byte;
    if p > 0 && q > 0 {
      ByteInjective(p - 1 + CAUCHY_MAX_COLUMNS, q - 1 + CAUCHY_MAX_COLUMNS);
    }
  }

  lemma RowMeetsNoColumn(row: nat, a: nat)
    requires 0 < row <= CAUCHY_MAX_ROWS
    ensures Add(RowPoint(row).x, ColumnPoint(a)) != ZERO
  {
    hide Byte, Add;
    ByteInjective(row - 1 + CAUCHY_MAX_COLUMNS, Wrap(a) % CAUCHY_MAX_COLUMNS);
    DifferentSum(RowPoint(row).x, ColumnPoint(a));
  }

  // Any losses inside the range of parity and Cauchy packets with different row
  // numbers, at least as many of these as losses, in any order: the elimination
  // meets no zero pivot, and the losses are determined.
  lemma AnyLossesRecoverable(recs: seq<Recovery>, k: nat, raw: Draws, base: nat, lost: seq<nat>, counts: seq<nat>)
    requires Ranged(recs, base) && DistinctRows(recs, k) && 0 < |lost| <= k
    requires forall i, j :: 0 <= i < j < |lost| ==> lost[i] < lost[j]
    requires forall i :: 0 <= i < k ==> Covers(recs[i], base, lost)
    requires |counts| == k && forall i :: 0 <= i < k ==> counts[i] == |lost|
    ensures PivotsInOrder(MatrixRows(recs, k, raw, base, lost), counts, |lost|)
    ensures Determined(recs, k, raw, base, lost)
  {
    hide Add, Inv, Byte, EntryRow, Weight, RowPoint, ColumnPoint, PivotsInOrder, FullColumnRank;
    var mat := MatrixRows(recs, k, raw, base, lost);
    var pts := seq(k, i requires 0 <= i < k => RowPoint(recs[i].metadata.row));
    var ys := seq(|lost|, j requires 0 <= j < |lost| => ColumnPoint(lost[j]));
    forall p, j | 0 <= p < k && 0 <= j < |lost| ensures mat[p][j] == Weight(pts[p], ys[j]) {
      CoveredEntry(recs[p], raw, base, lost, j);
    }
    AllApart(recs, k, base, lost, pts, ys);
    CauchyPivotsInOrder(mat, counts, pts, ys);
    PivotsMeanFullRank(mat, counts, |lost|);
  }

  lemma AllApart(recs: seq<Recovery>, k: nat, base: nat, lost: seq<nat>, pts: seq<Point>, ys: seq<Gf>)
    requires DistinctRows(recs, k) && 0 < |lost| <= k == |pts| && |ys| == |lost|
    requires forall i, j :: 0 <= i < j < |lost| ==> lost[i] < lost[j]
    requires forall i :: 0 <= i < k ==> Covers(recs[i], base, lost) && pts[i] == RowPoint(recs[i].metadata.row)
    requires forall j :: 0 <= j < |lost| ==> ys[j] == ColumnPoint(lost[j])
    ensures Apart(pts, ys)
  {
    hide Add, ColumnPoint, Wrap, Byte;
    forall p, q | 0 <= p < q < k ensures pts[p] != pts[q] {
      RowsApart(recs[p].metadata.row, recs[q].metadata.row);
    }
    forall i, j | 0 <= i < j < |lost| ensures ys[i] != ys[j] {
      assert Covers(recs[0], base, lost);
      ColumnsApart(lost[i], lost[j]);
    }
    forall p, j | 0 <= p < k && 0 <= j < |lost| && pts[p].At? ensures Add(pts[p].x, ys[j]) != ZERO {
      RowMeetsNoColumn(recs[p].metadata.row, lost[j]);
    }
  }
}
