// Replaying the elimination on the recovery payloads. A payload is one byte
// here; every buffer operation of the solver works byte by byte.
module Solver {
  import opened Gf256
  import opened LinearAlgebra
  import opened Factorization
  import opened Rank
  import opened RecoveryMatrix

  // The payload of pivot row p once the first t pivot payloads are taken out.
  ghost function Reduced(us: seq<Row>, x: Row, p: nat, t: nat): Gf
    requires Shaped(us, |x|) && t <= p < |us| && p <= |x|
  {
    Add(DotFrom(us[p], x, p), Add(Combine(us[p], us, x, p), Combine(us[p], us, x, t)))
  }

  lemma ReducedStart(a: seq<Row>, us: seq<Row>, x: Row, p: nat)
    requires Triangular(a, us, |x|) && p < |x|
    ensures Dot(a[p], x) == Reduced(us, x, p, 0)
  {
    hide Add, Mul, Dot, DotFrom;
    var d, c := DotFrom(us[p], x, p), Combine(us[p], us, x, p);
    assert Factored(a[p], us[p], us, p);
    AddZero(c);
    AddComm(c, d);
  }

  lemma ReducedDone(us: seq<Row>, x: Row, p: nat)
    requires Shaped(us, |x|) && p < |us| && p <= |x|
    ensures Reduced(us, x, p, p) == DotFrom(us[p], x, p)
  {
    hide Add, Mul, DotFrom, Combine;
    AddSelf(Combine(us[p], us, x, p));
    AddZero(DotFrom(us[p], x, p));
  }

  lemma ReducedStep(us: seq<Row>, x: Row, p: nat, t: nat)
    requires Shaped(us, |x|) && t < p < |us| && p <= |x|
    ensures Add(Reduced(us, x, p, t), Mul(DotFrom(us[t], x, t), us[p][t])) == Reduced(us, x, p, t + 1)
  {
    hide Add, Mul, DotFrom;
    var d, c, e := DotFrom(us[p], x, p), Combine(us[p], us, x, p), Combine(us[p], us, x, t);
    var y := Mul(us[p][t], DotFrom(us[t], x, t));
    MulComm(us[p][t], DotFrom(us[t], x, t));
    AddAssoc(d, Add(c, e), y);
    AddAssoc(c, e, y);
  }

  // The payload of pivot row p once the columns from c on are known.
  ghost function Remaining(us: seq<Row>, x: Row, p: nat, c: nat): Gf
    requires Shaped(us, |x|) && p < |us| && p <= |x| && c <= |x|
  {
    Add(DotFrom(us[p], x, p), DotFrom(us[p], x, c))
  }

  lemma RemainingStart(us: seq<Row>, x: Row, p: nat)
    requires Shaped(us, |x|) && p < |us| && p <= |x|
    ensures DotFrom(us[p], x, p) == Remaining(us, x, p, |x|)
  {
    AddZero(DotFrom(us[p], x, p));
  }

  lemma RemainingStep(us: seq<Row>, x: Row, p: nat, c: nat)
    requires Shaped(us, |x|) && p < |us| && p <= |x| && c < |x|
    ensures Add(Remaining(us, x, p, c + 1), Mul(x[c], us[p][c])) == Remaining(us, x, p, c)
  {
    hide Add, Mul;
    MulComm(x[c], us[p][c]);
    AddAssoc(DotFrom(us[p], x, p), DotFrom(us[p], x, c + 1), Mul(us[p][c], x[c]));
    AddComm(DotFrom(us[p], x, c + 1), Mul(us[p][c], x[c]));
  }

  // Only the diagonal term is left: dividing by the pivot reveals x[c].
  lemma RemainingLast(us: seq<Row>, x: Row, c: nat)
    requires Shaped(us, |x|) && c < |us| && c < |x| && us[c][c] != ZERO
    ensures Mul(Remaining(us, x, c, c + 1), Inv(us[c][c])) == x[c]
  {
    hide Add, Mul, Inv;
    var u, d := us[c][c], DotFrom(us[c], x, c + 1);
    AddComm(Mul(u, x[c]), d);
    AddCancel(d, Mul(u, x[c]));
    assert Remaining(us, x, c, c + 1) == Mul(u, x[c]) by {
      AddAssoc(Mul(u, x[c]), d, d);
      AddSelf(d);
      AddZero(Mul(u, x[c]));
    }
    MulComm(u, x[c]);
    MulAssoc(x[c], u, Inv(u));
    MulInv(u);
    MulOne(x[c]);
  }

  // Payloads still carry the sums the encoder made of the lost data x.
  ghost predicate CarriesSums(m: RecoveryMatrixState, payload: array<Gf>, x: Row)
    requires m.Solved()
    reads m, payload
  {
    && payload.Length == |m.Rows| && |x| == m.Columns
    && forall p :: 0 <= p < m.Columns ==> payload[m.Pivots[p]] == Dot(m.Original[m.Pivots[p]], x)
  }

  ghost predicate CarriesTriangle(m: RecoveryMatrixState, payload: array<Gf>, x: Row)
    requires m.Solved()
    reads m, payload
  {
    && payload.Length == |m.Rows| && |x| == m.Columns
    && forall p :: 0 <= p < m.Columns ==> payload[m.Pivots[p]] == DotFrom(m.Matrix[m.Pivots[p]], x, p)
  }

  // The rows used for the solution are those of the pivots.
  lemma UsedRowsCarry(m: RecoveryMatrixState, payload: array<Gf>, x: Row)
    requires m.Solved() && payload.Length == |m.Rows| && |x| == m.Columns
    requires forall i :: 0 <= i < |m.Rows| && m.Rows[i].usedForSolution ==> |m.Original[i]| == |x| && payload[i] == Dot(m.Original[i], x)
    ensures CarriesSums(m, payload, x)
  {
    hide Dot, Factored, ZeroTails;
  }

  // The payloads in pivot order.
  ghost predicate Slots(payload: seq<Gf>, piv: seq<nat>, want: seq<Gf>) {
    && IsPermutation(piv) && |payload| == |piv| && |want| <= |piv|
    && forall p :: 0 <= p < |want| ==> payload[piv[p]] == want[p]
  }

  lemma SlotUpdate(payload: seq<Gf>, piv: seq<nat>, want: seq<Gf>, p: nat, v: Gf)
    requires Slots(payload, piv, want) && p < |want|
    ensures Slots(payload[piv[p] := v], piv, want[p := v])
  {}

  // Pivots 0 .. i - 1 are taken out of all rows, pivot i of the rows before j.
  ghost function Lowered(us: seq<Row>, x: Row, i: nat, j: nat): (r: seq<Gf>)
    requires Shaped(us, |x|) && |x| <= |us|
    ensures |r| == |x|
  {
    seq(|x|, p requires 0 <= p < |x| =>
      Reduced(us, x, p, if p <= i then p else if p < j then i + 1 else i))
  }

  // Columns from c on are known and taken out of the rows before j.
  ghost function Raised(us: seq<Row>, x: Row, c: nat, j: nat): (r: seq<Gf>)
    requires Shaped(us, |x|) && |x| <= |us| && c < |x|
    ensures |r| == c + 1
  {
    seq(c + 1, p requires 0 <= p < c + 1 => Remaining(us, x, p, if p < j then c else c + 1))
  }

  method MultiplyLowerTriangle(m: RecoveryMatrixState, payload: array<Gf>, ghost x: Row)
    requires m.Solved() && 0 < m.Columns && CarriesSums(m, payload, x)
    modifies payload
    ensures CarriesTriangle(m, payload, x)
  {
    hide Add, Mul, DotFrom, Dot, Combine, Reduced, Factored;
    var columns, piv := m.Columns, m.Pivots;
    ghost var us := Ordered(m.Matrix, piv);
    forall p | 0 <= p < columns ensures payload[piv[p]] == Reduced(us, x, p, 0) {
      ReducedStart(Ordered(m.Original, piv), us, x, p);
    }
    assert Slots(payload[..], piv, Lowered(us, x, 0, 0));
    for col_i := 0 to columns - 1
      invariant Slots(payload[..], piv, Lowered(us, x, col_i, 0))
    {
      TakeOutPivot(m.Matrix, piv, payload, columns, col_i, us, x);
      assert Lowered(us, x, col_i, columns) == Lowered(us, x, col_i + 1, 0);
    }
    forall p | 0 <= p < columns ensures payload[piv[p]] == DotFrom(us[p], x, p) {
      ReducedDone(us, x, p);
    }
  }

  // The inner loop: adds the payload of pivot col_i into the rows after it.
  method TakeOutPivot(mat: seq<Row>, piv: seq<nat>, payload: array<Gf>, columns: nat, col_i: nat, ghost us: seq<Row>, ghost x: Row)
    requires |mat| == |piv| && IsPermutation(piv) && Shaped(mat, |x|) && us == Ordered(mat, piv)
    requires col_i < columns == |x| <= |piv|
    requires Slots(payload[..], piv, Lowered(us, x, col_i, 0))
    modifies payload
    ensures Slots(payload[..], piv, Lowered(us, x, col_i, columns))
  {
    hide Add, Mul, DotFrom, Reduced;
    ReducedDone(us, x, col_i);
    assert Lowered(us, x, col_i, 0) == Lowered(us, x, col_i, col_i + 1);
    for col_j := col_i + 1 to columns
      invariant Slots(payload[..], piv, Lowered(us, x, col_i, col_j))
    {
      ghost var want := Lowered(us, x, col_i, col_j);
      var y := mat[piv[col_j]][col_i];
      assert want[col_i] == Reduced(us, x, col_i, col_i) && want[col_j] == Reduced(us, x, col_j, col_i);
      ReducedStep(us, x, col_j, col_i);
      SlotUpdate(payload[..], piv, want, col_j, Reduced(us, x, col_j, col_i + 1));
      assert want[col_j := Reduced(us, x, col_j, col_i + 1)] == Lowered(us, x, col_i, col_j + 1);
      if y == ZERO {
        MulZero(payload[piv[col_i]]);
        AddZero(payload[piv[col_j]]);
        assert payload[..][piv[col_j] := payload[piv[col_j]]] == payload[..];
      } else {
        payload[piv[col_j]] := Add(payload[piv[col_j]], Mul(payload[piv[col_i]], y));
      }
    }
  }

  method BackSubstitution(m: RecoveryMatrixState, payload: array<Gf>, recovered: array<Gf>, ghost x: Row)
    requires m.Solved() && CarriesTriangle(m, payload, x)
    requires recovered != payload && recovered.Length == m.Columns
    modifies payload, recovered
    ensures recovered[..] == x
  {
    hide Add, Mul, Inv, DotFrom, Remaining, Factored;
    var columns, piv := m.Columns, m.Pivots;
    ghost var us := Ordered(m.Matrix, piv);
    forall p | 0 <= p < columns ensures payload[piv[p]] == Remaining(us, x, p, columns) {
      RemainingStart(us, x, p);
    }
    for col_i := columns downto 0
      invariant Slots(payload[..], piv, seq(col_i, p requires 0 <= p < col_i => Remaining(us, x, p, col_i)))
      invariant recovered[col_i..] == x[col_i..]
    {
      assert seq(col_i + 1, p requires 0 <= p < col_i + 1 => Remaining(us, x, p, col_i + 1)) == Raised(us, x, col_i, 0);
      assert Raised(us, x, col_i, 0)[col_i] == Remaining(us, x, col_i, col_i + 1);
      var y := m.Matrix[piv[col_i]][col_i];
      RemainingLast(us, x, col_i);
      recovered[col_i] := Mul(payload[piv[col_i]], Inv(y));
      assert recovered[col_i..] == [recovered[col_i]] + recovered[col_i + 1..];
      TakeOutColumn(m.Matrix, piv, payload, recovered[col_i], col_i, us, x);
      assert Raised(us, x, col_i, col_i)[..col_i] == seq(col_i, p requires 0 <= p < col_i => Remaining(us, x, p, col_i));
    }
  }

  // The inner loop: eliminates a recovered column from the pivot rows above it.
  method TakeOutColumn(mat: seq<Row>, piv: seq<nat>, payload: array<Gf>, value: Gf, col_i: nat, ghost us: seq<Row>, ghost x: Row)
    requires |mat| == |piv| && IsPermutation(piv) && Shaped(mat, |x|) && us == Ordered(mat, piv)
    requires col_i < |x| <= |piv| && value == x[col_i]
    requires Slots(payload[..], piv, Raised(us, x, col_i, 0))
    modifies payload
    ensures Slots(payload[..], piv, Raised(us, x, col_i, col_i))
  {
    hide Add, Mul, DotFrom, Remaining;
    for col_j := 0 to col_i
      invariant Slots(payload[..], piv, Raised(us, x, col_i, col_j))
    {
      ghost var want := Raised(us, x, col_i, col_j);
      var v := mat[piv[col_j]][col_i];
      assert want[col_j] == Remaining(us, x, col_j, col_i + 1);
      RemainingStep(us, x, col_j, col_i);
      SlotUpdate(payload[..], piv, want, col_j, Remaining(us, x, col_j, col_i));
      assert want[col_j := Remaining(us, x, col_j, col_i)] == Raised(us, x, col_i, col_j + 1);
      if v == ZERO {
        MulZero(value);
        AddZero(payload[piv[col_j]]);
        assert payload[..][piv[col_j] := payload[piv[col_j]]] == payload[..];
      } else {
        payload[piv[col_j]] := Add(payload[piv[col_j]], Mul(value, v));
      }
    }
  }
}
