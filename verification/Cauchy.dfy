// Parity and Cauchy rows: their matrix stays Cauchy-like under elimination, so
// no pivot is ever zero, whatever the order of the rows.
module Cauchy {
  import opened Gf256
  import opened LinearAlgebra
  import opened RecoveryMatrix

  // A row of all ones, or a row of inverses 1 / (x + y).
  datatype Point = Parity | At(x: Gf)

  function Weight(p: Point, y: Gf): Gf {
    match p
    case Parity => ONE
    case At(x) => Inv(Add(x, y))
  }

  // ---- field identities ----

  lemma InvOne()
    ensures Inv(ONE) == ONE
  {
    hide Mul, Inv;
    MulInv(ONE);
    MulOne(Inv(ONE));
  }

  lemma InvUnique(a: Gf, b: Gf)
    requires Mul(a, b) == ONE
    ensures a != ZERO && Inv(a) == b
  {
    hide Mul, Inv;
    MulZero(b);
    MulInv(a);
    MulComm(Inv(a), a);
    MulAssoc(Inv(a), a, b);
    MulOne(b);
    MulOne(Inv(a));
  }

  lemma InvInv(a: Gf)
    requires a != ZERO
    ensures Inv(a) != ZERO && Inv(Inv(a)) == a
  {
    hide Mul, Inv;
    MulInv(a);
    MulComm(a, Inv(a));
    InvUnique(Inv(a), a);
  }

  lemma MulSwap(a: Gf, b: Gf, c: Gf, d: Gf)
    ensures Mul(Mul(a, b), Mul(c, d)) == Mul(Mul(a, c), Mul(b, d))
  {
    hide Mul;
    MulAssoc(a, b, Mul(c, d));
    MulAssoc(b, c, d);
    MulComm(b, c);
    MulAssoc(c, b, d);
    MulAssoc(a, c, Mul(b, d));
  }

  lemma InvMul(a: Gf, b: Gf)
    requires a != ZERO && b != ZERO
    ensures Mul(a, b) != ZERO && Inv(Mul(a, b)) == Mul(Inv(a), Inv(b))
  {
    hide Mul, Inv;
    MulSwap(a, b, Inv(a), Inv(b));
    MulInv(a);
    MulInv(b);
    MulOne(ONE);
    InvUnique(Mul(a, b), Mul(Inv(a), Inv(b)));
  }

  lemma NonZeroMul(a: Gf, b: Gf)
    requires a != ZERO && b != ZERO
    ensures Mul(a, b) != ZERO
  {
    hide Mul;
    if Mul(a, b) == ZERO {
      NoZeroDivisors(a, b);
    }
  }

  lemma DifferentSum(a: Gf, b: Gf)
    requires a != b
    ensures Add(a, b) != ZERO
  {
    hide Add;
    AddCancel(a, b);
    AddZero(a);
  }

  // ---- one elimination step on Cauchy weights ----

  // With pivot point k and pivot column yk, the weights of row p are scaled by
  // RowScale, those of column yj by ColScale.
  function RowScale(p: Point, k: Point, yk: Gf): Gf {
    match p
    case Parity => ONE
    case At(x) =>
      var d := Inv(Add(x, yk));
      if k.Parity? then d else Mul(Add(Add(x, yk), Add(k.x, yk)), d)
  }

  function ColScale(k: Point, yk: Gf, yj: Gf): Gf {
    match k
    case Parity => Add(yk, yj)
    case At(x) => Mul(Add(Add(x, yk), Add(x, yj)), Inv(Add(x, yj)))
  }

  lemma BothAt(P: Gf, Q: Gf, R: Gf, S: Gf)
    requires P != ZERO && R != ZERO && S != ZERO && S == Add(Add(P, Q), R)
    ensures Add(Inv(S), Mul(Mul(Inv(P), Q), Inv(R)))
            == Mul(Mul(Mul(Add(P, Q), Inv(P)), Mul(Add(Q, R), Inv(R))), Inv(S))
  {
    hide Add, Mul, Inv;
    var u, v, t := Mul(Q, Inv(P)), Mul(Q, Inv(R)), Mul(Mul(Q, Inv(P)), Inv(R));
    MulComm(Inv(P), Q);
    MulDistL(P, Q, Inv(P));
    MulInv(P);
    MulDistL(Q, R, Inv(R));
    MulInv(R);
    TimesSum(P, Q, R, u, v, t);
    // (1 + u)(v + 1) == 1 + t * S
    MulDistR(Add(ONE, u), v, ONE);
    MulOne(Add(ONE, u));
    MulDistL(ONE, u, v);
    MulOne(v);
    AddComm(ONE, u);
    AddAssoc(Add(v, Mul(u, v)), u, ONE);
    AddComm(ONE, Mul(t, S));
    // (1 + t * S) / S == 1 / S + t
    MulDistL(ONE, Mul(t, S), Inv(S));
    MulOne(Inv(S));
    MulAssoc(t, S, Inv(S));
    MulInv(S);
    MulOne(t);
  }

  lemma TimesSum(P: Gf, Q: Gf, R: Gf, u: Gf, v: Gf, t: Gf)
    requires P != ZERO && R != ZERO
    requires u == Mul(Q, Inv(P)) && v == Mul(Q, Inv(R)) && t == Mul(u, Inv(R))
    ensures Mul(t, Add(Add(P, Q), R)) == Add(Add(v, Mul(u, v)), u)
  {
    hide Add, Mul, Inv;
    MulDistR(t, Add(P, Q), R);
    MulDistR(t, P, Q);
    MulInv(P);
    MulInv(R);
    // t * P == v
    MulAssoc(u, Inv(R), P);
    MulComm(Inv(R), P);
    MulAssoc(u, P, Inv(R));
    MulAssoc(Q, Inv(P), P);
    MulComm(Inv(P), P);
    MulOne(Q);
    // t * Q == u * v
    MulAssoc(u, Inv(R), Q);
    MulComm(Inv(R), Q);
    // t * R == u
    MulAssoc(u, Inv(R), R);
    MulComm(Inv(R), R);
    MulOne(u);
  }

  // The eliminated weight is the old weight, scaled.
  lemma WeightStep(p: Point, k: Point, yk: Gf, yj: Gf)
    requires p != k
    requires p.At? ==> Add(p.x, yk) != ZERO && Add(p.x, yj) != ZERO
    requires k.At? ==> Add(k.x, yk) != ZERO && Add(k.x, yj) != ZERO
    ensures Add(Weight(p, yj), Mul(Mul(Weight(p, yk), Inv(Weight(k, yk))), Weight(k, yj)))
            == Mul(Mul(RowScale(p, k, yk), ColScale(k, yk, yj)), Weight(p, yj))
  {
    hide Add, Mul, Inv;
    match k {
      case Parity =>
        var P, S := Add(p.x, yk), Add(p.x, yj);
        InvOne();
        MulOne(Inv(P));
        SharedSum(p.x, yk, yj);
        // 1 / S + 1 / P == (P + S) / (P * S)
        MulDistR(Inv(P), P, S);
        MulComm(Inv(P), P);
        MulInv(P);
        MulDistL(ONE, Mul(Inv(P), S), Inv(S));
        MulAssoc(Inv(P), S, Inv(S));
        MulInv(S);
        MulOne(Inv(S));
      case At(xk) =>
        var Q, R := Add(xk, yk), Add(xk, yj);
        InvInv(Q);
        if p.Parity? {
          MulOne(Q);
          MulDistL(Q, R, Inv(R));
          MulInv(R);
          AddComm(ONE, Mul(Q, Inv(R)));
          MulOne(Add(Mul(Q, Inv(R)), ONE));
        } else {
          FourSum(p.x, xk, yk, yj);
          BothAt(Add(p.x, yk), Q, R, Add(p.x, yj));
        }
    }
  }

  lemma SharedSum(x: Gf, a: Gf, b: Gf)
    ensures Add(a, b) == Add(Add(x, a), Add(x, b)) == Add(Add(a, x), Add(b, x))
  {
    hide Add;
    AddSwap(x, a, x, b);
    AddSelf(x);
    AddZero(Add(a, b));
    AddComm(x, a);
    AddComm(x, b);
  }

  lemma FourSum(x: Gf, z: Gf, a: Gf, b: Gf)
    ensures Add(x, b) == Add(Add(Add(x, a), Add(z, a)), Add(z, b))
  {
    hide Add;
    SharedSum(a, x, z);
    SharedSum(z, x, b);
    AddComm(z, b);
  }

  // ---- elimination of a whole Cauchy matrix ----

  // Distinct rows, distinct columns, and no row point meets a column point.
  ghost predicate Apart(pts: seq<Point>, ys: seq<Gf>) {
    && (forall p, q :: 0 <= p < q < |pts| ==> pts[p] != pts[q])
    && (forall i, j :: 0 <= i < j < |ys| ==> ys[i] != ys[j])
    && (forall p, j :: 0 <= p < |pts| && 0 <= j < |ys| && pts[p].At? ==> Add(pts[p].x, ys[j]) != ZERO)
  }

  // From row and column k on, every entry is row scale * column scale * weight.
  ghost predicate Scaled(mat: seq<Row>, pts: seq<Point>, ys: seq<Gf>, rs: seq<Gf>, ss: seq<Gf>, k: nat) {
    && |mat| == |pts| == |rs| && |ys| == |ss| && Shaped(mat, |ys|)
    && (forall p :: k <= p < |mat| ==> rs[p] != ZERO)
    && (forall j :: k <= j < |ys| ==> ss[j] != ZERO)
    && (forall p, j :: k <= p < |mat| && k <= j < |ys| ==> mat[p][j] == Mul(Mul(rs[p], ss[j]), Weight(pts[p], ys[j])))
  }

  lemma WeightNonZero(p: Point, y: Gf)
    requires p.At? ==> Add(p.x, y) != ZERO
    ensures Weight(p, y) != ZERO
  {
    hide Add, Mul, Inv;
    if p.At? {
      InvInv(Add(p.x, y));
    }
  }

  lemma RowScaleNonZero(p: Point, k: Point, yk: Gf)
    requires p != k && (p.At? ==> Add(p.x, yk) != ZERO)
    ensures RowScale(p, k, yk) != ZERO
  {
    hide Mul, Inv, Add;
    if p.At? {
      InvInv(Add(p.x, yk));
      if k.At? {
        SharedSum(yk, p.x, k.x);
        DifferentSum(p.x, k.x);
        NonZeroMul(Add(Add(p.x, yk), Add(k.x, yk)), Inv(Add(p.x, yk)));
      }
    }
  }

  lemma ColScaleNonZero(k: Point, yk: Gf, yj: Gf)
    requires yk != yj && (k.At? ==> Add(k.x, yj) != ZERO)
    ensures ColScale(k, yk, yj) != ZERO
  {
    hide Mul, Inv, Add;
    DifferentSum(yk, yj);
    if k.At? {
      SharedSum(k.x, yk, yj);
      InvInv(Add(k.x, yj));
      NonZeroMul(Add(Add(k.x, yk), Add(k.x, yj)), Inv(Add(k.x, yj)));
    }
  }

  // Dividing out the pivot entry cancels its own scales.
  lemma ScaledQuotient(rp: Gf, rk: Gf, sk: Gf, sj: Gf, wpk: Gf, wkk: Gf, wkj: Gf)
    requires rk != ZERO && sk != ZERO && wkk != ZERO
    ensures Mul(Mul(Mul(rk, sj), wkj), Div(Mul(Mul(rp, sk), wpk), Mul(Mul(rk, sk), wkk)))
            == Mul(Mul(rp, sj), Mul(Mul(wpk, Inv(wkk)), wkj))
  {
    hide Add, Mul, Inv;
    var g := Mul(wpk, Inv(wkk));
    InvMul(rk, sk);
    InvMul(Mul(rk, sk), wkk);
    MulSwap(Mul(rp, sk), wpk, Mul(Inv(rk), Inv(sk)), Inv(wkk));
    MulSwap(rp, sk, Inv(rk), Inv(sk));
    MulInv(sk);
    MulOne(Mul(rp, Inv(rk)));
    MulComm(Mul(Mul(rk, sj), wkj), Mul(Mul(rp, Inv(rk)), g));
    MulSwap(Mul(rp, Inv(rk)), g, Mul(rk, sj), wkj);
    MulAssoc(rp, Inv(rk), Mul(rk, sj));
    MulAssoc(Inv(rk), rk, sj);
    MulComm(Inv(rk), rk);
    MulInv(rk);
    MulOne(sj);
  }

  lemma EntryStep(rp: Gf, rk: Gf, sk: Gf, sj: Gf, p: Point, k: Point, yk: Gf, yj: Gf)
    requires p != k && rk != ZERO && sk != ZERO
    requires p.At? ==> Add(p.x, yk) != ZERO && Add(p.x, yj) != ZERO
    requires k.At? ==> Add(k.x, yk) != ZERO && Add(k.x, yj) != ZERO
    ensures Add(Mul(Mul(rp, sj), Weight(p, yj)),
                Mul(Mul(Mul(rk, sj), Weight(k, yj)), Div(Mul(Mul(rp, sk), Weight(p, yk)), Mul(Mul(rk, sk), Weight(k, yk)))))
            == Mul(Mul(Mul(rp, RowScale(p, k, yk)), Mul(sj, ColScale(k, yk, yj))), Weight(p, yj))
  {
    hide Add, Mul, Inv, Div, Weight, RowScale, ColScale;
    var a, b, w := RowScale(p, k, yk), ColScale(k, yk, yj), Weight(p, yj);
    var h := Mul(Mul(Weight(p, yk), Inv(Weight(k, yk))), Weight(k, yj));
    WeightNonZero(k, yk);
    ScaledQuotient(rp, rk, sk, sj, Weight(p, yk), Weight(k, yk), Weight(k, yj));
    MulDistR(Mul(rp, sj), w, h);
    WeightStep(p, k, yk, yj);
    MulAssoc(Mul(rp, sj), Mul(a, b), w);
    MulSwap(rp, sj, a, b);
  }

  lemma PivotNonZero(mat: seq<Row>, pts: seq<Point>, ys: seq<Gf>, rs: seq<Gf>, ss: seq<Gf>, k: nat, p: nat)
    requires Apart(pts, ys) && Scaled(mat, pts, ys, rs, ss, k) && k < |ys| && k <= p < |mat|
    ensures mat[p][k] != ZERO
  {
    hide Add, Mul, Inv, Weight;
    WeightNonZero(pts[p], ys[k]);
    NonZeroMul(rs[p], ss[k]);
    NonZeroMul(Mul(rs[p], ss[k]), Weight(pts[p], ys[k]));
  }

  lemma ScaledStep(mat: seq<Row>, lost: seq<nat>, pts: seq<Point>, ys: seq<Gf>, rs: seq<Gf>, ss: seq<Gf>, k: nat)
    returns (rs': seq<Gf>, ss': seq<Gf>)
    requires Apart(pts, ys) && Scaled(mat, pts, ys, rs, ss, k)
    requires k < |ys| && k < |mat| && |lost| == |mat| && lost[k] == |ys|
    ensures Scaled(ClearColumn(mat, lost, |ys|, k), pts, ys, rs', ss', k + 1)
  {
    hide Add, Mul, Div, Inv, Weight, RowScale, ColScale;
    var n, next := |ys|, ClearColumn(mat, lost, |ys|, k);
    rs' := seq(|rs|, p requires 0 <= p < |rs| => Mul(rs[p], RowScale(pts[p], pts[k], ys[k])));
    ss' := seq(n, j requires 0 <= j < n => Mul(ss[j], ColScale(pts[k], ys[k], ys[j])));
    forall p | k + 1 <= p < |mat| ensures rs'[p] != ZERO {
      RowScaleNonZero(pts[p], pts[k], ys[k]);
      NonZeroMul(rs[p], RowScale(pts[p], pts[k], ys[k]));
    }
    forall j | k + 1 <= j < n ensures ss'[j] != ZERO {
      ColScaleNonZero(pts[k], ys[k], ys[j]);
      NonZeroMul(ss[j], ColScale(pts[k], ys[k], ys[j]));
    }
    forall p, j | k + 1 <= p < |mat| && k + 1 <= j < n
      ensures next[p][j] == Mul(Mul(rs'[p], ss'[j]), Weight(pts[p], ys[j]))
    {
      EntryStep(rs[p], rs[k], ss[k], ss[j], pts[p], pts[k], ys[k], ys[j]);
      PivotNonZero(mat, pts, ys, rs, ss, k, p);
    }
  }

  // Entry p, j is the weight of row point p at column point j.
  ghost predicate CauchyMatrix(mat: seq<Row>, pts: seq<Point>, ys: seq<Gf>) {
    && |mat| == |pts| && Shaped(mat, |ys|)
    && forall p, j :: 0 <= p < |mat| && 0 <= j < |ys| ==> mat[p][j] == Weight(pts[p], ys[j])
  }

  lemma {:induction false} StageScaled(mat: seq<Row>, lost: seq<nat>, pts: seq<Point>, ys: seq<Gf>, k: nat)
    returns (rs: seq<Gf>, ss: seq<Gf>)
    requires Apart(pts, ys) && CauchyMatrix(mat, pts, ys) && |lost| == |mat|
    requires k <= |ys| <= |mat| && forall r :: 0 <= r < |lost| ==> lost[r] == |ys|
    ensures Scaled(Stage(mat, lost, |ys|, k), pts, ys, rs, ss, k)
  {
    hide Mul, Weight, ClearColumn;
    if k == 0 {
      rs, ss := seq(|mat|, _ => ONE), seq(|ys|, _ => ONE);
      forall p, j | 0 <= p < |mat| && 0 <= j < |ys|
        ensures mat[p][j] == Mul(Mul(rs[p], ss[j]), Weight(pts[p], ys[j]))
      {
        MulOne(ONE);
        MulOne(Weight(pts[p], ys[j]));
      }
    } else {
      var r, s := StageScaled(mat, lost, pts, ys, k - 1);
      rs, ss := ScaledStep(Stage(mat, lost, |ys|, k - 1), lost, pts, ys, r, s, k - 1);
    }
  }

  lemma CauchyPivotsInOrder(mat: seq<Row>, lost: seq<nat>, pts: seq<Point>, ys: seq<Gf>)
    requires Apart(pts, ys) && CauchyMatrix(mat, pts, ys) && |lost| == |mat|
    requires |ys| <= |mat| && forall r :: 0 <= r < |lost| ==> lost[r] == |ys|
    ensures PivotsInOrder(mat, lost, |ys|)
  {
    hide Stage;
    forall k | 0 <= k < |ys| ensures Stage(mat, lost, |ys|, k)[k][k] != ZERO {
      var rs, ss := StageScaled(mat, lost, pts, ys, k);
      PivotNonZero(Stage(mat, lost, |ys|, k), pts, ys, rs, ss, k, k);
    }
  }
}
