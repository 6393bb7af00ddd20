// The factorisation the decoder's elimination keeps, on plain sequences: `a`
// are the generated matrix rows and `us` the working rows, both listed in
// pivot order; `lv[p]` is how many pivots row p has been eliminated with.
module Factorization {
  import opened Gf256
  import opened LinearAlgebra

  ghost predicate Leveled(a: seq<Row>, us: seq<Row>, n: nat, lv: seq<nat>) {
    && |a| == |us| == |lv|
    && Shaped(a, n) && Shaped(us, n)
    && forall p :: 0 <= p < |a| ==> lv[p] <= n && lv[p] <= |us|
  }

  ghost predicate LU(a: seq<Row>, us: seq<Row>, n: nat, lv: seq<nat>)
    requires Leveled(a, us, n, lv)
  {
    forall p :: 0 <= p < |a| ==> Factored(a[p], us[p], us, lv[p])
  }

  ghost predicate Diagonal(us: seq<Row>, k: nat)
    requires k <= |us|
  {
    forall i :: 0 <= i < k ==> i < |us[i]| && us[i][i] != ZERO
  }

  // k pivots found, rows p >= lo .. < mid already eliminated with pivot k.
  ghost function Levels(m: nat, k: nat, mid: nat): (lv: seq<nat>)
    ensures |lv| == m
  {
    seq(m, p requires 0 <= p < m => if p <= k then p else if p < mid then k + 1 else k)
  }

  // Row q is eliminated with pivot row k; nobody else's factors involve row q.
  lemma EliminateStep(a: seq<Row>, us: seq<Row>, n: nat, lv: seq<nat>, k: nat, q: nat, columnEnd: nat)
    requires Leveled(a, us, n, lv) && LU(a, us, n, lv)
    requires k < q < |us| && lv[q] == k && k < columnEnd <= n
    requires forall p :: 0 <= p < |us| ==> lv[p] <= q
    requires us[k][k] != ZERO
    requires forall j :: columnEnd <= j < n ==> us[k][j] == ZERO
    ensures var vs := us[q := EliminateRow(us[k], us[q], k, columnEnd)];
            Leveled(a, vs, n, lv[q := k + 1]) && LU(a, vs, n, lv[q := k + 1])
  {
    hide Factored, EliminateRow;
    var r := EliminateRow(us[k], us[q], k, columnEnd);
    var vs := us[q := r];
    var lw := lv[q := k + 1];
    forall p | 0 <= p < |a| ensures Factored(a[p], vs[p], vs, lw[p]) {
      if p == q {
        var pre := us[..k];
        FactoredFrame(a[q], us[q], us, pre, k);
        EliminateKeepsFactored(a[q], us[q], pre, us[k], columnEnd);
        FactoredFrame(a[q], r, pre + [us[k]], vs, k + 1);
      } else {
        FactoredFrame(a[p], us[p], us, vs, lv[p]);
      }
    }
  }

  ghost function Swap<T>(s: seq<T>, i: nat, j: nat): (r: seq<T>)
    requires i < |s| && j < |s|
    ensures |r| == |s|
  {
    s[i := s[j]][j := s[i]]
  }

  // Swapping two rows that are not pivot rows yet.
  lemma SwapStep(a: seq<Row>, us: seq<Row>, n: nat, lv: seq<nat>, i: nat, j: nat)
    requires Leveled(a, us, n, lv) && LU(a, us, n, lv)
    requires i < |us| && j < |us| && lv[i] == lv[j]
    requires forall p :: 0 <= p < |us| ==> lv[p] <= i && lv[p] <= j
    ensures Leveled(Swap(a, i, j), Swap(us, i, j), n, lv)
    ensures LU(Swap(a, i, j), Swap(us, i, j), n, lv)
  {
    hide Factored;
    var b, vs := Swap(a, i, j), Swap(us, i, j);
    forall p | 0 <= p < |a| ensures Factored(b[p], vs[p], vs, lv[p]) {
      var o := if p == i then j else if p == j then i else p;
      FactoredFrame(a[o], us[o], us, vs, lv[p]);
    }
  }
}
