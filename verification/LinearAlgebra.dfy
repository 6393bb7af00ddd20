// Vectors over GF(2^8): inner products, and the factored form in which the
// decoder keeps a partly eliminated row.
module LinearAlgebra {
  import opened Gf256

  type Row = seq<Gf>

  // Sum of row[j] * x[j] for j >= i.
  function DotFrom(row: Row, x: Row, i: nat): Gf
    requires |row| == |x| && i <= |x|
    decreases |x| - i
  {
    if i == |x| then ZERO else Add(Mul(row[i], x[i]), DotFrom(row, x, i + 1))
  }

  function Dot(row: Row, x: Row): Gf
    requires |row| == |x|
  {
    DotFrom(row, x, 0)
  }

  ghost predicate Shaped(us: seq<Row>, n: nat) {
    forall i :: 0 <= i < |us| ==> |us[i]| == n
  }

  // Sum over the first k pivots of multiplier times pivot row, where pivot row
  // i starts at column i.
  function Combine(w: Row, us: seq<Row>, x: Row, k: nat): Gf
    requires k <= |us| && k <= |x| == |w| && Shaped(us, |x|)
    decreases k
  {
    if k == 0 then ZERO
    else Add(Combine(w, us, x, k - 1), Mul(w[k - 1], DotFrom(us[k - 1], x, k - 1)))
  }

  // The working row w holds its multipliers left of column k and its residual
  // from column k on; together with the pivot rows they give back the row a.
  ghost predicate Factored(a: Row, w: Row, us: seq<Row>, k: nat)
    requires |a| == |w| && k <= |us| && k <= |a| && Shaped(us, |a|)
  {
    forall x: Row | |x| == |a| :: Dot(a, x) == Add(Combine(w, us, x, k), DotFrom(w, x, k))
  }

  // Columns before i do not matter to DotFrom.
  lemma {:induction false} DotFromSame(r: Row, s: Row, x: Row, i: nat)
    requires |r| == |s| == |x| && i <= |x|
    requires forall j :: i <= j < |x| ==> r[j] == s[j]
    ensures DotFrom(r, x, i) == DotFrom(s, x, i)
    decreases |x| - i
  {
    hide Add, Mul;
    if i < |x| {
      DotFromSame(r, s, x, i + 1);
    }
  }

  lemma {:induction false} DotFromZero(r: Row, x: Row, i: nat)
    requires |r| == |x| && i <= |x|
    requires forall j :: i <= j < |x| ==> r[j] == ZERO || x[j] == ZERO
    ensures DotFrom(r, x, i) == ZERO
    decreases |x| - i
  {
    hide Add, Mul;
    if i < |x| {
      DotFromZero(r, x, i + 1);
      MulZero(x[i]);
      MulZero(r[i]);
      AddZero(ZERO);
    }
  }

  // r == s + y * u from column i on.
  lemma {:induction false} DotFromMulAdd(r: Row, s: Row, u: Row, y: Gf, x: Row, i: nat)
    requires |r| == |s| == |u| == |x| && i <= |x|
    requires forall j :: i <= j < |x| ==> r[j] == Add(s[j], Mul(y, u[j]))
    ensures DotFrom(r, x, i) == Add(DotFrom(s, x, i), Mul(y, DotFrom(u, x, i)))
    decreases |x| - i
  {
    hide Add, Mul;
    if i == |x| {
      MulZero(y);
      AddZero(ZERO);
    } else {
      DotFromMulAdd(r, s, u, y, x, i + 1);
      MulDistL(s[i], Mul(y, u[i]), x[i]);
      MulAssoc(y, u[i], x[i]);
      MulDistR(y, Mul(u[i], x[i]), DotFrom(u, x, i + 1));
      AddSwap(Mul(s[i], x[i]), Mul(y, Mul(u[i], x[i])), DotFrom(s, x, i + 1), Mul(y, DotFrom(u, x, i + 1)));
    }
  }

  // Combine looks at the first k multipliers and pivot rows only.
  lemma {:induction false} CombineSame(w: Row, v: Row, us: seq<Row>, vs: seq<Row>, x: Row, k: nat)
    requires k <= |us| && k <= |vs| && k <= |x| == |w| == |v| && Shaped(us, |x|) && Shaped(vs, |x|)
    requires forall i :: 0 <= i < k ==> w[i] == v[i] && us[i] == vs[i]
    ensures Combine(w, us, x, k) == Combine(v, vs, x, k)
  {
    hide Add, Mul;
    if k > 0 {
      CombineSame(w, v, us, vs, x, k - 1);
    }
  }

  lemma {:induction false} CombineZero(w: Row, us: seq<Row>, x: Row, k: nat)
    requires k <= |us| && k <= |x| == |w| && Shaped(us, |x|)
    requires forall i :: 0 <= i < k ==> DotFrom(us[i], x, i) == ZERO
    ensures Combine(w, us, x, k) == ZERO
  {
    hide Add, Mul;
    if k > 0 {
      CombineZero(w, us, x, k - 1);
      MulZero(w[k - 1]);
      AddZero(ZERO);
    }
  }

  lemma FactoredFrame(a: Row, w: Row, us: seq<Row>, vs: seq<Row>, k: nat)
    requires |a| == |w| && k <= |us| && k <= |vs| && k <= |a| && Shaped(us, |a|) && Shaped(vs, |a|)
    requires forall i :: 0 <= i < k ==> us[i] == vs[i]
    requires Factored(a, w, us, k)
    ensures Factored(a, w, vs, k)
  {
    hide Add, Mul;
    forall x: Row | |x| == |a| ensures Dot(a, x) == Add(Combine(w, vs, x, k), DotFrom(w, x, k)) {
      CombineSame(w, w, us, vs, x, k);
    }
  }

  // A row nothing was done to is its own factored form.
  lemma FactoredStart(a: Row, us: seq<Row>)
    requires Shaped(us, |a|)
    ensures Factored(a, a, us, 0)
  {
    hide Add, Mul;
    forall x: Row | |x| == |a| ensures Dot(a, x) == Add(Combine(a, us, x, 0), DotFrom(a, x, 0)) {
      AddZero(Dot(a, x));
    }
  }

  // rem[] += ge[] * y on the columns [start, end).
  function MulAddRows(ge: Row, rem: Row, start: nat, end: nat, y: Gf): (r: Row)
    requires |ge| == |rem| && end <= |ge|
    ensures |r| == |rem|
  {
    seq(|rem|, j requires 0 <= j < |rem| => if start <= j < end then Add(rem[j], Mul(ge[j], y)) else rem[j])
  }

  // Clears column `pivot` of rem with the pivot row ge and remembers there the
  // multiplier that did it.
  function EliminateRow(ge: Row, rem: Row, pivot: nat, columnEnd: nat): (r: Row)
    requires |ge| == |rem| && pivot < columnEnd <= |ge|
    ensures |r| == |rem|
  {
    if rem[pivot] == ZERO then rem
    else
      var y := Div(rem[pivot], ge[pivot]);
      MulAddRows(ge, rem[pivot := y], pivot + 1, columnEnd, y)
  }

  // One elimination step keeps the row's factored form, with one more pivot.
  lemma EliminateKeepsFactored(a: Row, rem: Row, us: seq<Row>, ge: Row, columnEnd: nat)
    requires |us| < columnEnd <= |a| == |rem| == |ge| && Shaped(us, |a|)
    requires Factored(a, rem, us, |us|)
    requires ge[|us|] != ZERO
    requires forall j :: columnEnd <= j < |ge| ==> ge[j] == ZERO
    ensures Factored(a, EliminateRow(ge, rem, |us|, columnEnd), us + [ge], |us| + 1)
  {
    hide Add, Mul, Div, EliminateRow;
    var k := |us|;
    var r := EliminateRow(ge, rem, k, columnEnd);
    forall x: Row | |x| == |a|
      ensures Dot(a, x) == Add(Combine(r, us + [ge], x, k + 1), DotFrom(r, x, k + 1))
    {
      EliminateAt(rem, us, ge, columnEnd, x);
    }
  }

  lemma EliminateAt(rem: Row, us: seq<Row>, ge: Row, columnEnd: nat, x: Row)
    requires |us| < columnEnd <= |x| == |rem| == |ge| && Shaped(us, |x|)
    requires ge[|us|] != ZERO
    requires forall j :: columnEnd <= j < |ge| ==> ge[j] == ZERO
    ensures var k := |us|; var r := EliminateRow(ge, rem, k, columnEnd);
            Add(Combine(rem, us, x, k), DotFrom(rem, x, k))
            == Add(Combine(r, us + [ge], x, k + 1), DotFrom(r, x, k + 1))
  {
    hide Add, Mul, Div, EliminateRow, Combine, DotFrom;
    var k := |us|;
    var r := EliminateRow(ge, rem, k, columnEnd);
    var vs := us + [ge];
    RowAfter(rem, ge, k, columnEnd);
    CombineSame(rem, r, us, vs, x, k);
    DotFromMulAdd(r, rem, ge, r[k], x, k + 1);
    CombineNext(r, vs, x, k);
    DotFromNext(rem, x, k);
    DotFromNext(ge, x, k);
    Regroup(Combine(rem, us, x, k), rem[k], ge[k], r[k], x[k], DotFrom(rem, x, k + 1), DotFrom(ge, x, k + 1));
  }

  lemma CombineNext(w: Row, us: seq<Row>, x: Row, k: nat)
    requires k < |us| && k < |x| == |w| && Shaped(us, |x|)
    ensures Combine(w, us, x, k + 1) == Add(Combine(w, us, x, k), Mul(w[k], DotFrom(us[k], x, k)))
  {}

  lemma DotFromNext(row: Row, x: Row, i: nat)
    requires |row| == |x| && i < |x|
    ensures DotFrom(row, x, i) == Add(Mul(row[i], x[i]), DotFrom(row, x, i + 1))
  {}

  lemma Regroup(c: Gf, v: Gf, p: Gf, y: Gf, xk: Gf, d: Gf, e: Gf)
    requires Mul(y, p) == v
    ensures Add(c, Add(Mul(v, xk), d)) == Add(Add(c, Mul(y, Add(Mul(p, xk), e))), Add(d, Mul(y, e)))
  {
    hide Add, Mul;
    var t, f := Mul(y, Add(Mul(p, xk), e)), Mul(y, e);
    PivotTerm(v, p, y, xk, e);
    AddComm(d, f);
    AddAssoc(c, t, Add(f, d));
    AddAssoc(t, f, d);
  }

  lemma RowAfter(rem: Row, ge: Row, k: nat, columnEnd: nat)
    requires k < columnEnd <= |rem| == |ge|
    requires ge[k] != ZERO
    requires forall j :: columnEnd <= j < |ge| ==> ge[j] == ZERO
    ensures var r := EliminateRow(ge, rem, k, columnEnd);
            && r[k] == (if rem[k] == ZERO then ZERO else Div(rem[k], ge[k]))
            && Mul(r[k], ge[k]) == rem[k]
            && (forall j :: 0 <= j < k ==> r[j] == rem[j])
            && forall j :: k < j < |rem| ==> r[j] == Add(rem[j], Mul(r[k], ge[j]))
  {
    hide Add, Mul, Div;
    var r := EliminateRow(ge, rem, k, columnEnd);
    MulZero(ge[k]);
    if rem[k] != ZERO {
      DivMul(rem[k], ge[k]);
    }
    forall j | k < j < |rem| ensures r[j] == Add(rem[j], Mul(r[k], ge[j])) {
      MulComm(r[k], ge[j]);
      MulZero(r[k]);
      MulZero(ge[j]);
      AddZero(rem[j]);
    }
  }

  lemma PivotTerm(v: Gf, p: Gf, y: Gf, xk: Gf, e: Gf)
    requires Mul(y, p) == v
    ensures Add(Mul(y, Add(Mul(p, xk), e)), Mul(y, e)) == Mul(v, xk)
  {
    hide Add, Mul;
    MulDistR(y, Mul(p, xk), e);
    MulAssoc(y, p, xk);
    AddCancel(Mul(y, e), Mul(v, xk));
  }
}
