// What the outcome of the elimination says about the generated matrix: it
// runs through exactly when the matrix has full column rank.
module Rank {
  import opened Collections
  import opened Gf256
  import opened LinearAlgebra
  import opened Factorization

  ghost predicate InKernel(rows: seq<Row>, x: Row)
    requires Shaped(rows, |x|)
  {
    forall r :: 0 <= r < |rows| ==> Dot(rows[r], x) == ZERO
  }

  ghost predicate IsZero(x: Row) {
    forall j :: 0 <= j < |x| ==> x[j] == ZERO
  }

  // No two data vectors give the same recovery payloads.
  ghost predicate FullColumnRank(rows: seq<Row>, n: nat)
    requires Shaped(rows, n)
  {
    forall x: Row | |x| == n && InKernel(rows, x) :: IsZero(x)
  }

  // ---- success ----

  // Every pivot row p has been eliminated with exactly the p pivots before it.
  ghost predicate Triangular(a: seq<Row>, us: seq<Row>, n: nat) {
    && n <= |us| == |a| && Shaped(a, n) && Shaped(us, n) && Diagonal(us, n)
    && forall p :: 0 <= p < n ==> Factored(a[p], us[p], us, p)
  }

  lemma {:induction false} PivotRowsVanish(a: seq<Row>, us: seq<Row>, n: nat, x: Row, t: nat)
    requires Triangular(a, us, n)
    requires |x| == n && InKernel(a, x) && t <= n
    ensures forall p :: 0 <= p < t ==> DotFrom(us[p], x, p) == ZERO
  {
    hide Add, Mul, DotFrom, Combine;
    if t > 0 {
      var p := t - 1;
      PivotRowsVanish(a, us, n, x, p);
      assert Factored(a[p], us[p], us, p);
      CombineZero(us[p], us, x, p);
      AddZero(DotFrom(us[p], x, p));
    }
  }

  lemma {:induction false} BackToZero(us: seq<Row>, n: nat, x: Row, t: nat)
    requires Shaped(us, n) && |x| == n && t <= n <= |us| && Diagonal(us, n)
    requires forall p :: 0 <= p < n ==> DotFrom(us[p], x, p) == ZERO
    ensures forall j :: t <= j < n ==> x[j] == ZERO
    decreases n - t
  {
    hide Add, Mul;
    if t < n {
      BackToZero(us, n, x, t + 1);
      DotFromZero(us[t], x, t + 1);
      assert DotFrom(us[t], x, t) == Add(Mul(us[t][t], x[t]), ZERO);
      AddZero(Mul(us[t][t], x[t]));
      NoZeroDivisors(us[t][t], x[t]);
    }
  }

  lemma SolvedMeansFullRank(a: seq<Row>, us: seq<Row>, n: nat)
    requires Triangular(a, us, n)
    ensures FullColumnRank(a, n)
  {
    hide Add, Mul, DotFrom, Factored;
    forall x: Row | |x| == n && InKernel(a, x) ensures IsZero(x) {
      PivotRowsVanish(a, us, n, x, n);
      BackToZero(us, n, x, 0);
    }
  }

  // ---- failure ----

  // A vector with a 1 at column k, zeros after it, that every pivot row of
  // index t <= i < k maps to zero.
  lemma {:induction false} SolvePrefix(us: seq<Row>, n: nat, k: nat, t: nat) returns (x: Row)
    requires Shaped(us, n) && t <= k < n && k <= |us| && Diagonal(us, k)
    ensures |x| == n && x[k] == ONE && forall j :: k < j < n ==> x[j] == ZERO
    ensures forall i :: t <= i < k ==> DotFrom(us[i], x, i) == ZERO
    decreases k - t
  {
    hide Add, Mul, Div, DotFrom;
    if t == k {
      x := seq(n, j => if j == k then ONE else ZERO);
    } else {
      var y := SolvePrefix(us, n, k, t + 1);
      var u := us[t];
      var d := DotFrom(u, y, t + 1);
      x := y[t := Div(d, u[t])];
      forall i | t < i < k ensures DotFrom(us[i], x, i) == ZERO {
        DotFromSameVector(us[i], x, y, i);
      }
      DotFromSameVector(u, x, y, t + 1);
      DivMul(d, u[t]);
      MulComm(u[t], x[t]);
      AddSelf(d);
      DotFromStep(u, x, t);
    }
  }

  lemma DotFromStep(u: Row, x: Row, t: nat)
    requires |u| == |x| && t < |u|
    ensures DotFrom(u, x, t) == Add(Mul(u[t], x[t]), DotFrom(u, x, t + 1))
  {}

  lemma {:induction false} DotFromSameVector(u: Row, x: Row, y: Row, i: nat)
    requires |u| == |x| == |y| && i <= |u|
    requires forall j :: i <= j < |u| ==> x[j] == y[j]
    ensures DotFrom(u, x, i) == DotFrom(u, y, i)
    decreases |u| - i
  {
    hide Add, Mul;
    if i < |u| {
      DotFromSameVector(u, x, y, i + 1);
    }
  }

  // Stuck at column k: no row past the pivots has anything there.
  lemma StuckMeansKernel(a: seq<Row>, us: seq<Row>, n: nat, lv: seq<nat>, k: nat)
    requires Leveled(a, us, n, lv) && LU(a, us, n, lv)
    requires k < n && k <= |us| && Diagonal(us, k)
    requires forall p :: 0 <= p < |us| ==> lv[p] == (if p < k then p else k)
    requires forall p :: k <= p < |us| ==> us[p][k] == ZERO
    ensures !FullColumnRank(a, n)
  {
    hide Add, Mul, DotFrom, Combine;
    var x := SolvePrefix(us, n, k, 0);
    forall p | 0 <= p < |a| ensures Dot(a[p], x) == ZERO {
      var l := lv[p];
      assert Factored(a[p], us[p], us, l);
      CombineZero(us[p], us, x, l);
      if p >= k {
        DotFromZero(us[p], x, k);
      }
      AddZero(ZERO);
    }
    assert InKernel(a, x);
    assert x[k] != ZERO;
  }

  // ---- the order of the rows does not matter ----

  ghost predicate IsPermutation(piv: seq<nat>) {
    && (forall i :: 0 <= i < |piv| ==> piv[i] < |piv|)
    && (forall i, j :: 0 <= i < j < |piv| ==> piv[i] != piv[j])
  }

  ghost function Ordered(rows: seq<Row>, piv: seq<nat>): (r: seq<Row>)
    requires |rows| == |piv| && IsPermutation(piv)
    ensures |r| == |rows|
    ensures forall p :: 0 <= p < |piv| ==> r[p] == rows[piv[p]]
  {
    seq(|piv|, p requires 0 <= p < |piv| => rows[piv[p]])
  }

  lemma EveryRowHasASlot(piv: seq<nat>, r: nat) returns (p: nat)
    requires IsPermutation(piv) && r < |piv|
    ensures p < |piv| && piv[p] == r
  {
    assert Distinct(piv);
    Fills(piv, |piv|);
    assert r in Elements(piv);
    p :| p < |piv| && piv[p] == r;
  }

  lemma RankIgnoresOrder(rows: seq<Row>, piv: seq<nat>, n: nat)
    requires |rows| == |piv| && IsPermutation(piv) && Shaped(rows, n)
    ensures FullColumnRank(Ordered(rows, piv), n) <==> FullColumnRank(rows, n)
  {
    hide Dot;
    var a := Ordered(rows, piv);
    forall x: Row | |x| == n ensures InKernel(a, x) <==> InKernel(rows, x) {
      if InKernel(a, x) {
        forall r | 0 <= r < |rows| ensures Dot(rows[r], x) == ZERO {
          var p := EveryRowHasASlot(piv, r);
          assert a[p] == rows[r];
        }
      }
    }
  }
}
