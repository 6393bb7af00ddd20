// Running sums over lanes of columns, and why a recovery row assembled from
// them is the row of coefficients applied to the data.
module LaneSums {
  import opened Columns
  import opened Gf256
  import opened LinearAlgebra
  import opened Coefficients

  // h[a] is the data of the a-th packet ever sent. Sum over the packets of
  // one lane in [from, to) that were sent, each times its column power.
  function LaneSum(h: seq<Gf>, lane: nat, s: nat, start: nat, end: nat): Gf
    decreases end
  {
    if end <= start then ZERO
    else
      var a := end - 1;
      Add(LaneSum(h, lane, s, start, a), LaneTerm(h, lane, s, a))
  }

  function LaneTerm(h: seq<Gf>, lane: nat, s: nat, a: nat): Gf {
    if a < |h| && a % LANE_COUNT == lane then Mul(ColumnPower(Wrap(a), s), h[a]) else ZERO
  }

  // Packets of other lanes, and packets not sent yet, add nothing.
  lemma {:induction false} LaneSumSkip(h: seq<Gf>, lane: nat, s: nat, start: nat, t: nat, end: nat)
    requires start <= t <= end
    requires forall a :: t <= a < end && a % LANE_COUNT == lane ==> a >= |h|
    ensures LaneSum(h, lane, s, start, end) == LaneSum(h, lane, s, start, t)
    decreases end
  {
    hide Add, Mul, ColumnPower;
    if t < end {
      LaneSumSkip(h, lane, s, start, t, end - 1);
      AddZero(LaneSum(h, lane, s, start, end - 1));
    }
  }

  // Sending another packet changes no sum that does not reach it.
  lemma {:induction false} LaneSumAppend(h: seq<Gf>, v: Gf, lane: nat, s: nat, start: nat, end: nat)
    requires end <= |h| || |h| % LANE_COUNT != lane
    ensures LaneSum(h + [v], lane, s, start, end) == LaneSum(h, lane, s, start, end)
    decreases end
  {
    hide Add, Mul, ColumnPower;
    if start < end {
      LaneSumAppend(h, v, lane, s, start, end - 1);
    }
  }

  // ---- a dense row from its lane sums ----

  lemma WhenAdd(b: bool, x: Gf, y: Gf)
    ensures When(b, Add(x, y)) == Add(When(b, x), When(b, y))
  {
    AddZero(ZERO);
  }

  lemma WhenMul(b: bool, x: Gf, y: Gf)
    ensures Mul(When(b, x), y) == When(b, Mul(x, y))
  {
    hide Mul;
    MulZero(y);
  }

  // What one lane contributes to the payload (base 0) or the product (base 3).
  function LaneHalf(h: seq<Gf>, row: nat, lane: nat, base: nat, start: nat, end: nat): Gf
    requires row < 256 && lane < LANE_COUNT && base <= 3
  {
    Add(Add(When(OpcodeBit(lane, row, base), LaneSum(h, lane, 0, start, end)),
            When(OpcodeBit(lane, row, base + 1), LaneSum(h, lane, 1, start, end))),
            When(OpcodeBit(lane, row, base + 2), LaneSum(h, lane, 2, start, end)))
  }

  function AllLanes(h: seq<Gf>, row: nat, lanes: nat, base: nat, start: nat, end: nat): Gf
    requires row < 256 && lanes <= LANE_COUNT && base <= 3
    decreases lanes
  {
    if lanes == 0 then ZERO
    else Add(AllLanes(h, row, lanes - 1, base, start, end), LaneHalf(h, row, lanes - 1, base, start, end))
  }

  // The first k terms of LaneHalf.
  function PartialHalf(h: seq<Gf>, row: nat, lane: nat, base: nat, start: nat, end: nat, k: nat): Gf
    requires row < 256 && lane < LANE_COUNT && base <= 3 && k <= SUM_COUNT
  {
    if k == 0 then ZERO
    else Add(PartialHalf(h, row, lane, base, start, end, k - 1),
             When(OpcodeBit(lane, row, base + k - 1), LaneSum(h, lane, k - 1, start, end)))
  }

  lemma PartialHalfAll(h: seq<Gf>, row: nat, lane: nat, base: nat, start: nat, end: nat)
    requires row < 256 && lane < LANE_COUNT && base <= 3
    ensures PartialHalf(h, row, lane, base, start, end, SUM_COUNT) == LaneHalf(h, row, lane, base, start, end)
  {
    hide Add, OpcodeBit, LaneSum;
    var w0 := When(OpcodeBit(lane, row, base), LaneSum(h, lane, 0, start, end));
    AddZero(w0);
    assert PartialHalf(h, row, lane, base, start, end, 1) == w0;
    assert PartialHalf(h, row, lane, base, start, end, 2)
        == Add(w0, When(OpcodeBit(lane, row, base + 1), LaneSum(h, lane, 1, start, end)));
  }

  lemma LaneHalfStep(h: seq<Gf>, row: nat, lane: nat, base: nat, start: nat, end: nat)
    requires row < 256 && lane < LANE_COUNT && base <= 3 && start <= end < |h|
    ensures LaneHalf(h, row, lane, base, start, end + 1)
            == if lane == end % LANE_COUNT
               then Add(LaneHalf(h, row, lane, base, start, end), Mul(DenseHalf(lane, row, Wrap(end), base), h[end]))
               else LaneHalf(h, row, lane, base, start, end)
  {
    hide Add, Mul, ColumnPower, OpcodeBit, When, Wrap;
    if lane == end % LANE_COUNT {
      var c, v := Wrap(end), h[end];
      var b0, b1, b2 := OpcodeBit(lane, row, base), OpcodeBit(lane, row, base + 1), OpcodeBit(lane, row, base + 2);
      HalfStep(b0, b1, b2,
               LaneSum(h, lane, 0, start, end), LaneSum(h, lane, 1, start, end), LaneSum(h, lane, 2, start, end),
               ColumnPower(c, 0), ColumnPower(c, 1), ColumnPower(c, 2), v);
    } else {
      forall s: nat ensures LaneSum(h, lane, s, start, end + 1) == LaneSum(h, lane, s, start, end) {
        LaneSumSkip(h, lane, s, start, end, end + 1);
      }
    }
  }

  lemma HalfStep(b0: bool, b1: bool, b2: bool, s0: Gf, s1: Gf, s2: Gf, p0: Gf, p1: Gf, p2: Gf, v: Gf)
    ensures Add(Add(When(b0, Add(s0, Mul(p0, v))), When(b1, Add(s1, Mul(p1, v)))), When(b2, Add(s2, Mul(p2, v))))
            == Add(Add(Add(When(b0, s0), When(b1, s1)), When(b2, s2)),
                   Mul(Add(Add(When(b0, p0), When(b1, p1)), When(b2, p2)), v))
  {
    hide Add, Mul, When;
    WhenAdd(b0, s0, Mul(p0, v)); WhenAdd(b1, s1, Mul(p1, v)); WhenAdd(b2, s2, Mul(p2, v));
    WhenMul(b0, p0, v); WhenMul(b1, p1, v); WhenMul(b2, p2, v);
    MulDistL(Add(When(b0, p0), When(b1, p1)), When(b2, p2), v);
    MulDistL(When(b0, p0), When(b1, p1), v);
    AddSwap(When(b0, s0), When(b0, Mul(p0, v)), When(b1, s1), When(b1, Mul(p1, v)));
    AddSwap(Add(When(b0, s0), When(b1, s1)), Add(When(b0, Mul(p0, v)), When(b1, Mul(p1, v))), When(b2, s2), When(b2, Mul(p2, v)));
  }

  lemma {:induction false} AllLanesStep(h: seq<Gf>, row: nat, lanes: nat, base: nat, start: nat, end: nat)
    requires row < 256 && lanes <= LANE_COUNT && base <= 3 && start <= end < |h|
    ensures AllLanes(h, row, lanes, base, start, end + 1)
            == if end % LANE_COUNT < lanes
               then Add(AllLanes(h, row, lanes, base, start, end), Mul(DenseHalf(end % LANE_COUNT, row, Wrap(end), base), h[end]))
               else AllLanes(h, row, lanes, base, start, end)
    decreases lanes
  {
    hide Add, Mul, LaneHalf, DenseHalf, Wrap;
    if lanes > 0 {
      var l := lanes - 1;
      AllLanesStep(h, row, l, base, start, end);
      LaneHalfStep(h, row, l, base, start, end);
      var r, q := AllLanes(h, row, l, base, start, end), LaneHalf(h, row, l, base, start, end);
      var t := Mul(DenseHalf(end % LANE_COUNT, row, Wrap(end), base), h[end]);
      AddAssoc(r, q, t);
      AddAssoc(r, t, q);
      AddComm(t, q);
    }
  }

  lemma {:induction false} AllLanesEmpty(h: seq<Gf>, row: nat, lanes: nat, base: nat, start: nat)
    requires row < 256 && lanes <= LANE_COUNT && base <= 3
    ensures AllLanes(h, row, lanes, base, start, start) == ZERO
    decreases lanes
  {
    hide Add, OpcodeBit;
    AddZero(ZERO);
    if lanes > 0 {
      AllLanesEmpty(h, row, lanes - 1, base, start);
    }
  }

  lemma {:induction false} DotSnoc(r: Row, c: Gf, f: Row, v: Gf, i: nat)
    requires |r| == |f| && i <= |r|
    ensures DotFrom(r + [c], f + [v], i) == Add(DotFrom(r, f, i), Mul(c, v))
    decreases |r| - i
  {
    hide Add, Mul;
    if i == |r| {
      AddComm(ZERO, Mul(c, v));
      assert DotFrom(r + [c], f + [v], i + 1) == ZERO;
    } else {
      DotSnoc(r, c, f, v, i + 1);
      AddAssoc(Mul(r[i], f[i]), DotFrom(r, f, i + 1), Mul(c, v));
    }
  }

  function DenseRow(row: nat, start: nat, end: nat): (r: Row)
    requires row < 256 && start <= end
    ensures |r| == end - start
  {
    seq(end - start, i requires 0 <= i < end - start => DenseCoefficient(row, Wrap(start + i)))
  }

  // The lane sums of all lanes, put together by the row's opcodes, are the
  // dense coefficients applied to the packets from `from` up to `to`.
  lemma {:induction false} DenseFromLanes(h: seq<Gf>, row: nat, start: nat, end: nat)
    requires row < 256 && start <= end <= |h|
    ensures Add(AllLanes(h, row, LANE_COUNT, 0, start, end), Mul(GetRowValue(row), AllLanes(h, row, LANE_COUNT, 3, start, end)))
            == Dot(DenseRow(row, start, end), h[start..end])
  {
    hide Add, Mul, DenseHalf, GetRowValue, AllLanes;
    var rx := GetRowValue(row);
    if end == start {
      AllLanesEmpty(h, row, LANE_COUNT, 0, start);
      AllLanesEmpty(h, row, LANE_COUNT, 3, start);
      MulZero(rx);
      AddZero(ZERO);
    } else {
      var t := end - 1;
      DenseFromLanes(h, row, start, t);
      AllLanesStep(h, row, LANE_COUNT, 0, start, t);
      AllLanesStep(h, row, LANE_COUNT, 3, start, t);
      WrapLane(t);
      var lane, c := t % LANE_COUNT, Wrap(t);
      var d0, d3, v := DenseHalf(lane, row, c, 0), DenseHalf(lane, row, c, 3), h[t];
      var p, w := AllLanes(h, row, LANE_COUNT, 0, start, t), AllLanes(h, row, LANE_COUNT, 3, start, t);
      DenseSplit(p, w, d0, d3, v, rx);
      DotSnoc(DenseRow(row, start, t), DenseCoefficient(row, c), h[start..t], v, 0);
      assert DenseRow(row, start, end) == DenseRow(row, start, t) + [DenseCoefficient(row, c)];
      assert h[start..end] == h[start..t] + [v];
    }
  }

  lemma DenseSplit(p: Gf, w: Gf, d0: Gf, d3: Gf, v: Gf, rx: Gf)
    ensures Add(Add(p, Mul(d0, v)), Mul(rx, Add(w, Mul(d3, v))))
            == Add(Add(p, Mul(rx, w)), Mul(Add(d0, Mul(rx, d3)), v))
  {
    hide Add, Mul;
    MulDistR(rx, w, Mul(d3, v));
    MulAssoc(rx, d3, v);
    MulDistL(d0, Mul(rx, d3), v);
    AddSwap(p, Mul(d0, v), Mul(rx, w), Mul(Mul(rx, d3), v));
  }

  // ---- the light columns ----

  // Sum over the first n pairs of their first (which 0) or second (1) packet.
  function LightSum(f: Row, raw: Draws, row: nat, n: nat, which: nat): Gf
    requires |f| > 0
  {
    if n == 0 then ZERO
    else Add(LightSum(f, raw, row, n - 1, which), f[Draw(raw, row, |f|, 2 * n - 2 + which)])
  }

  lemma LightNone(f: Row, raw: Draws, row: nat)
    requires |f| > 0
    ensures LightSum(f, raw, row, 0, 0) == ZERO == LightSum(f, raw, row, 0, 1)
  {}

  lemma LightNext(f: Row, raw: Draws, row: nat, n: nat)
    requires |f| > 0
    ensures LightSum(f, raw, row, n + 1, 0) == Add(LightSum(f, raw, row, n, 0), f[Draw(raw, row, |f|, 2 * n)])
    ensures LightSum(f, raw, row, n + 1, 1) == Add(LightSum(f, raw, row, n, 1), f[Draw(raw, row, |f|, 2 * n + 1)])
  {
    hide Draw, Add;
  }

  function LightRow(raw: Draws, row: nat, count: nat, n: nat): (r: Row)
    requires count > 0
    ensures |r| == count
  {
    seq(count, t requires 0 <= t < count => LightCoefficient(raw, row, count, t, n))
  }

  function DeltaRow(count: nat, d: nat, c: Gf): (r: Row)
    ensures |r| == count
  {
    seq(count, t requires 0 <= t < count => When(d == t, c))
  }

  lemma {:induction false} DotDelta(f: Row, d: nat, c: Gf, i: nat)
    requires d < |f| && i <= |f|
    ensures DotFrom(DeltaRow(|f|, d, c), f, i) == if i <= d then Mul(c, f[d]) else ZERO
    decreases |f| - i
  {
    hide Add, Mul;
    if i < |f| {
      DotDelta(f, d, c, i + 1);
      assert DeltaRow(|f|, d, c)[i] == When(d == i, c);
      MulZero(f[i]);
      AddZero(ZERO);
      AddZero(Mul(c, f[d]));
    }
  }

  lemma DotAdd(r: Row, s: Row, u: Row, f: Row)
    requires |r| == |s| == |u| == |f|
    requires forall j :: 0 <= j < |f| ==> r[j] == Add(s[j], u[j])
    ensures Dot(r, f) == Add(Dot(s, f), Dot(u, f))
  {
    hide Add, Mul, DotFrom;
    forall j | 0 <= j < |f| ensures r[j] == Add(s[j], Mul(ONE, u[j])) {
      MulOne(u[j]);
    }
    DotFromMulAdd(r, s, u, ONE, f, 0);
    MulOne(Dot(u, f));
  }

  // The picked packets are the light coefficients applied to the light range.
  lemma {:induction false} LightFromPairs(f: Row, raw: Draws, row: nat, n: nat)
    requires |f| > 0
    ensures Add(LightSum(f, raw, row, n, 0), Mul(GetRowValue(row), LightSum(f, raw, row, n, 1)))
            == Dot(LightRow(raw, row, |f|, n), f)
  {
    hide Add, Mul, GetRowValue, DotFrom, Draw;
    var rx := GetRowValue(row);
    if n == 0 {
      MulZero(rx);
      AddZero(ZERO);
      DotFromZero(LightRow(raw, row, |f|, 0), f, 0);
    } else {
      var m := n - 1;
      var d, e := Draw(raw, row, |f|, 2 * n - 2), Draw(raw, row, |f|, 2 * n - 1);
      var p, w := LightSum(f, raw, row, m, 0), LightSum(f, raw, row, m, 1);
      LightFromPairs(f, raw, row, m);
      MulDistR(rx, w, f[e]);
      AddSwap(p, f[d], Mul(rx, w), Mul(rx, f[e]));
      var first, second := DeltaRow(|f|, d, ONE), DeltaRow(|f|, e, rx);
      var pair := seq(|f|, t requires 0 <= t < |f| => Add(first[t], second[t]));
      DotDelta(f, d, ONE, 0);
      DotDelta(f, e, rx, 0);
      MulOne(f[d]);
      DotAdd(pair, first, second, f);
      DotAdd(LightRow(raw, row, |f|, n), LightRow(raw, row, |f|, m), pair, f);
    }
  }

  lemma {:induction false} DotShift(z: Row, l: Row, f: Row, g: Row, i: nat)
    requires |z| == |f| && |l| == |g| && i <= |f|
    requires forall j :: 0 <= j < |z| ==> z[j] == ZERO
    ensures DotFrom(z + l, f + g, i) == Dot(l, g)
    decreases |f| - i
  {
    hide Add, Mul;
    if i == |f| {
      DotSuffix(z, l, f, g, 0);
    } else {
      DotShift(z, l, f, g, i + 1);
      MulZero(f[i]);
      AddZero(Dot(l, g));
    }
  }

  lemma {:induction false} DotSuffix(z: Row, l: Row, f: Row, g: Row, i: nat)
    requires |z| == |f| && |l| == |g| && i <= |l|
    ensures DotFrom(z + l, f + g, |f| + i) == DotFrom(l, g, i)
    decreases |l| - i
  {
    hide Add, Mul;
    if i < |l| {
      DotSuffix(z, l, f, g, i + 1);
    }
  }

  // Extending a short row's payload by one more column.
  lemma RowSnoc(raw: Draws, m: Metadata, h: seq<Gf>, start: nat, i: nat)
    requires ValidMetadata(m) && i < m.sumCount && start + m.sumCount <= |h|
    ensures Dot(CoefficientRow(raw, m)[..i + 1], h[start..start + i + 1])
            == Add(Dot(CoefficientRow(raw, m)[..i], h[start..start + i]), Mul(Coefficient(raw, m, i), h[start + i]))
  {
    hide Add, Mul, DotFrom, Coefficient;
    var r := CoefficientRow(raw, m);
    DotSnoc(r[..i], r[i], h[start..start + i], h[start + i], 0);
    assert r[..i + 1] == r[..i] + [r[i]];
    assert h[start..start + i + 1] == h[start..start + i] + [h[start + i]];
  }

  // The payload of a Siamese row as the encoder assembles it is the row of
  // coefficients its metadata stands for, applied to the packets it covers.
  lemma SiameseRow(h: seq<Gf>, raw: Draws, m: Metadata, start: nat, end: nat)
    requires ValidMetadata(m) && m.sumCount > CAUCHY_THRESHOLD
    requires end <= |h| && end == start + m.sumCount && Wrap(start) == m.columnStart
    ensures var n, g := PairCount(m.ldpcCount), h[end - m.ldpcCount..end];
            Add(Add(AllLanes(h, m.row, LANE_COUNT, 0, start, end), LightSum(g, raw, m.row, n, 0)),
                Mul(GetRowValue(m.row), Add(AllLanes(h, m.row, LANE_COUNT, 3, start, end), LightSum(g, raw, m.row, n, 1))))
            == Dot(CoefficientRow(raw, m), h[start..end])
  {
    hide Add, Mul, DotFrom, GetRowValue, AllLanes, LightSum, DenseCoefficient, LightCoefficient;
    var n, light, g := PairCount(m.ldpcCount), m.sumCount - m.ldpcCount, h[end - m.ldpcCount..end];
    var f, rx := h[start..end], GetRowValue(m.row);
    DenseFromLanes(h, m.row, start, end);
    LightFromPairs(g, raw, m.row, n);
    var p, w := AllLanes(h, m.row, LANE_COUNT, 0, start, end), AllLanes(h, m.row, LANE_COUNT, 3, start, end);
    var lp, lw := LightSum(g, raw, m.row, n, 0), LightSum(g, raw, m.row, n, 1);
    MulDistR(rx, w, lw);
    AddSwap(p, lp, Mul(rx, w), Mul(rx, lw));
    var z, l := seq(light, _ => ZERO), LightRow(raw, m.row, m.ldpcCount, n);
    DotShift(z, l, h[start..start + light], g, 0);
    assert h[start..start + light] + g == f;
    var dense := DenseRow(m.row, start, end);
    forall i | 0 <= i < m.sumCount ensures CoefficientRow(raw, m)[i] == Add(dense[i], (z + l)[i]) {
      AddWrapped(i, start);
      AddZero(dense[i]);
    }
    DotAdd(CoefficientRow(raw, m), dense, z + l, f);
  }
}
