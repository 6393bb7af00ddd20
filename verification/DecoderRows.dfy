// One recovery packet at a time: its row of the recovery matrix, and taking
// out of its payload what was received.
module DecoderRows {
  import opened Collections
  import opened Columns
  import opened Gf256
  import opened LinearAlgebra
  import opened Coefficients
  import opened LaneSums
  import opened EncoderWindow
  import opened DecoderSums
  import opened Losses
  import opened Recoveries
  import opened DecoderWindow

  // ---- dense values ----

  // The value a matrix element gets from the opcode of its lane.
  method DenseValue(row: nat, column: nat) returns (value: Gf)
    requires row < ROW_PERIOD
    ensures value == DenseCoefficient(row, column)
  {
    hide Add, Mul, OpcodeBit, GetColumnValue, GetRowValue;
    var lane, cx, rx := column % LANE_COUNT, GetColumnValue(column), GetRowValue(row);
    var cx2 := Mul(cx, cx);
    value := ZERO;
    AddZero(When(OpcodeBit(lane, row, 0), ONE));
    if OpcodeBit(lane, row, 0) { value := Add(value, ONE); }
    AddZero(value);
    if OpcodeBit(lane, row, 1) { value := Add(value, cx); }
    AddZero(value);
    if OpcodeBit(lane, row, 2) { value := Add(value, cx2); }
    ghost var d := value;
    AddZero(d);
    if OpcodeBit(lane, row, 3) { value := Add(value, rx); }
    ghost var d3 := value;
    AddZero(d3);
    if OpcodeBit(lane, row, 4) { value := Add(value, Mul(cx, rx)); }
    ghost var d4 := value;
    AddZero(d4);
    if OpcodeBit(lane, row, 5) { value := Add(value, Mul(cx2, rx)); }
    ProductHalf(OpcodeBit(lane, row, 3), OpcodeBit(lane, row, 4), OpcodeBit(lane, row, 5), cx, cx2, rx, d);
  }

  lemma ProductHalf(b3: bool, b4: bool, b5: bool, cx: Gf, cx2: Gf, rx: Gf, d: Gf)
    ensures Add(d, Mul(rx, Add(Add(When(b3, ONE), When(b4, cx)), When(b5, cx2))))
            == Add(Add(Add(d, When(b3, rx)), When(b4, Mul(cx, rx))), When(b5, Mul(cx2, rx)))
  {
    hide Add, Mul;
    MulDistR(rx, Add(When(b3, ONE), When(b4, cx)), When(b5, cx2));
    MulDistR(rx, When(b3, ONE), When(b4, cx));
    MulWhen(rx, b3, ONE); MulWhen(rx, b4, cx); MulWhen(rx, b5, cx2);
    MulOne(rx);
    var w3, w4, w5 := When(b3, rx), When(b4, Mul(cx, rx)), When(b5, Mul(cx2, rx));
    AddAssoc(d, Add(w3, w4), w5);
    AddAssoc(d, w3, w4);
  }

  lemma MulWhen(rx: Gf, b: bool, x: Gf)
    ensures Mul(rx, When(b, x)) == When(b, Mul(x, rx))
  {
    hide Mul;
    MulComm(rx, x);
    MulZero(rx);
  }

  // ---- matrix rows ----

  // The lost packets follow the start of the row, less than a period later.
  ghost predicate After(lost: seq<nat>, start: nat) {
    && (forall i, j :: 0 <= i < j < |lost| ==> lost[i] < lost[j])
    && forall j :: 0 <= j < |lost| ==> start <= lost[j] < start + COLUMN_PERIOD
  }

  ghost predicate Numbers(columns: seq<nat>, lost: seq<nat>) {
    |columns| == |lost| && forall j :: 0 <= j < |lost| ==> columns[j] == Wrap(lost[j])
  }

  // Entry a of the row with the first n pairs of its light columns.
  ghost function PartialEntry(raw: Draws, m: Metadata, start: nat, a: nat, n: nat): Gf
    requires ValidMetadata(m) && m.sumCount > CAUCHY_THRESHOLD
  {
    var light := start + m.sumCount - m.ldpcCount;
    if start <= a < start + m.sumCount then
      Add(DenseCoefficient(m.row, Wrap(a)), if a < light then ZERO else LightCoefficient(raw, m.row, m.ldpcCount, a - light, n))
    else ZERO
  }

  ghost function PartialRow(raw: Draws, m: Metadata, start: nat, lost: seq<nat>, n: nat): (r: Row)
    requires ValidMetadata(m) && m.sumCount > CAUCHY_THRESHOLD
    ensures |r| == |lost|
  {
    seq(|lost|, j requires 0 <= j < |lost| => PartialEntry(raw, m, start, lost[j], n))
  }

  lemma PartialIsEntry(raw: Draws, m: Metadata, start: nat, lost: seq<nat>)
    requires ValidMetadata(m) && m.sumCount > CAUCHY_THRESHOLD && Wrap(start) == m.columnStart
    ensures PartialRow(raw, m, start, lost, PairCount(m.ldpcCount)) == EntryRow(raw, m, start, lost)
  {
    hide Add, Mul, DenseCoefficient, LightCoefficient, Wrap;
    forall j | 0 <= j < |lost|
      ensures PartialEntry(raw, m, start, lost[j], PairCount(m.ldpcCount)) == Entry(raw, m, start, lost[j])
    {
      var a := lost[j];
      if start <= a < start + m.sumCount {
        AddWrapped(a - start, start);
      }
    }
  }

  // The value of a lost column in a parity or Cauchy row.
  lemma ShortEntry(raw: Draws, m: Metadata, start: nat, a: nat)
    requires ValidMetadata(m) && m.sumCount <= CAUCHY_THRESHOLD && Wrap(start) == m.columnStart && start <= a < start + m.sumCount
    ensures Entry(raw, m, start, a) == if m.row == 0 then ONE else CauchyElement(m.row - 1, Wrap(a) % CAUCHY_MAX_COLUMNS)
  {
    hide CauchyElement;
    AddWrapped(a - start, start);
  }

  lemma ZerosAfter(raw: Draws, m: Metadata, start: nat, lost: seq<nat>, k: nat)
    requires ValidMetadata(m) && After(lost, start) && k < |lost| && lost[k] >= start + m.sumCount
    ensures EntryRow(raw, m, start, lost) == EntryRow(raw, m, start, lost[..k]) + seq(|lost| - k, _ => ZERO)
  {
    hide Coefficient;
  }

  lemma OneMore(raw: Draws, m: Metadata, start: nat, lost: seq<nat>, k: nat)
    requires ValidMetadata(m) && k < |lost|
    ensures EntryRow(raw, m, start, lost[..k + 1]) == EntryRow(raw, m, start, lost[..k]) + [Entry(raw, m, start, lost[k])]
  {
    hide Entry;
    assert lost[..k + 1] == lost[..k] + [lost[k]];
  }

  // The row of a parity or Cauchy packet, column by column until its range ends.
  method GenerateShortRow(raw: Draws, m: Metadata, columns: seq<nat>, ghost lost: seq<nat>, ghost start: nat) returns (row: seq<Gf>)
    requires ValidMetadata(m) && m.sumCount <= CAUCHY_THRESHOLD && Wrap(start) == m.columnStart
    requires After(lost, start) && Numbers(columns, lost)
    ensures row == EntryRow(raw, m, start, lost)
  {
    hide Entry, EntryRow, Wrap, CauchyElement;
    row := [];
    for j := 0 to |columns|
      invariant row == EntryRow(raw, m, start, lost[..j])
    {
      var column := columns[j];
      SubtractWrapped(lost[j], start);
      if SubtractColumns(column, m.columnStart) >= m.sumCount {
        ZerosAfter(raw, m, start, lost, j);
        return row + seq(|columns| - j, _ => ZERO);
      }
      ShortEntry(raw, m, start, lost[j]);
      OneMore(raw, m, start, lost, j);
      row := row + [if m.row == 0 then ONE else CauchyElement(m.row - 1, column % CAUCHY_MAX_COLUMNS)];
    }
    assert lost[..|columns|] == lost;
  }

  lemma DenseEntry(raw: Draws, m: Metadata, start: nat, a: nat)
    requires ValidMetadata(m) && m.sumCount > CAUCHY_THRESHOLD && start <= a < start + m.sumCount
    ensures PartialEntry(raw, m, start, a, 0) == DenseCoefficient(m.row, Wrap(a))
  {
    hide DenseCoefficient;
    AddZero(DenseCoefficient(m.row, Wrap(a)));
  }

  lemma OneMorePartial(raw: Draws, m: Metadata, start: nat, lost: seq<nat>, k: nat)
    requires ValidMetadata(m) && m.sumCount > CAUCHY_THRESHOLD && k < |lost|
    ensures PartialRow(raw, m, start, lost[..k + 1], 0) == PartialRow(raw, m, start, lost[..k], 0) + [PartialEntry(raw, m, start, lost[k], 0)]
  {
    hide PartialEntry;
    assert lost[..k + 1] == lost[..k] + [lost[k]];
  }

  lemma PartialZeros(raw: Draws, m: Metadata, start: nat, lost: seq<nat>, k: nat)
    requires ValidMetadata(m) && m.sumCount > CAUCHY_THRESHOLD && After(lost, start) && k < |lost| && lost[k] >= start + m.sumCount
    ensures PartialRow(raw, m, start, lost, 0) == PartialRow(raw, m, start, lost[..k], 0) + seq(|lost| - k, _ => ZERO)
  {
    hide DenseCoefficient, LightCoefficient;
  }

  // The dense columns of a Siamese row.
  method GenerateDenseColumns(raw: Draws, m: Metadata, columns: seq<nat>, ghost lost: seq<nat>, ghost start: nat) returns (row: seq<Gf>)
    requires ValidMetadata(m) && m.sumCount > CAUCHY_THRESHOLD && Wrap(start) == m.columnStart
    requires After(lost, start) && Numbers(columns, lost)
    ensures row == PartialRow(raw, m, start, lost, 0)
  {
    hide PartialEntry, PartialRow, Wrap, DenseCoefficient;
    row := [];
    assert PartialRow(raw, m, start, lost[..0], 0) == [];
    for j := 0 to |columns|
      invariant row == PartialRow(raw, m, start, lost[..j], 0)
    {
      var column := columns[j];
      SubtractWrapped(lost[j], start);
      if SubtractColumns(column, m.columnStart) >= m.sumCount {
        PartialZeros(raw, m, start, lost, j);
        return row + seq(|columns| - j, _ => ZERO);
      }
      DenseEntry(raw, m, start, lost[j]);
      OneMorePartial(raw, m, start, lost, j);
      var value := DenseValue(m.row, column);
      row := row + [value];
    }
    assert lost[..|columns|] == lost;
  }

  // ---- the light columns ----

  // Adding c in the column of packet p, if that is lost.
  ghost function Hit(row: Row, lost: seq<nat>, p: nat, c: Gf): (r: Row)
    requires |row| == |lost|
    ensures |r| == |row|
  {
    seq(|row|, j requires 0 <= j < |row| => Add(row[j], When(p == lost[j], c)))
  }

  // Lost packets from element `first` on know their matrix column.
  ghost predicate Indexed(originals: seq<Option<Gf>>, matrixColumns: seq<nat>, base: nat, first: nat, end: nat, lost: seq<nat>) {
    && |originals| == |matrixColumns| && end <= |originals|
    && forall e :: first <= e < end ==>
         if originals[e].None? then matrixColumns[e] < |lost| && lost[matrixColumns[e]] == base + e else base + e !in lost
  }

  lemma HitOne(row: Row, lost: seq<nat>, p: nat, c: Gf, k: nat)
    requires |row| == |lost| && k < |lost| && lost[k] == p
    requires forall i, j :: 0 <= i < j < |lost| ==> lost[i] != lost[j]
    ensures Hit(row, lost, p, c) == row[k := Add(row[k], c)]
  {
    hide Add;
    forall j | 0 <= j < |row| ensures Hit(row, lost, p, c)[j] == row[k := Add(row[k], c)][j] {
      AddZero(row[j]);
    }
  }

  lemma HitNone(row: Row, lost: seq<nat>, p: nat, c: Gf)
    requires |row| == |lost| && p !in lost
    ensures Hit(row, lost, p, c) == row
  {
    hide Add;
    forall j | 0 <= j < |row| ensures Hit(row, lost, p, c)[j] == row[j] {
      AddZero(row[j]);
    }
  }

  // Another pair of packets is drawn.
  lemma PairHits(raw: Draws, m: Metadata, start: nat, lost: seq<nat>, n: nat)
    requires ValidMetadata(m) && m.sumCount > CAUCHY_THRESHOLD
    ensures var light := start + m.sumCount - m.ldpcCount;
            var d, e := Draw(raw, m.row, m.ldpcCount, 2 * n), Draw(raw, m.row, m.ldpcCount, 2 * n + 1);
            Hit(Hit(PartialRow(raw, m, start, lost, n), lost, light + d, ONE), lost, light + e, GetRowValue(m.row))
            == PartialRow(raw, m, start, lost, n + 1)
  {
    hide Add, PartialEntry, GetRowValue, Draw;
    var light := start + m.sumCount - m.ldpcCount;
    var d, e := Draw(raw, m.row, m.ldpcCount, 2 * n), Draw(raw, m.row, m.ldpcCount, 2 * n + 1);
    forall j | 0 <= j < |lost|
      ensures Add(Add(PartialEntry(raw, m, start, lost[j], n), When(light + d == lost[j], ONE)), When(light + e == lost[j], GetRowValue(m.row)))
              == PartialEntry(raw, m, start, lost[j], n + 1)
    {
      PairEntry(raw, m, start, lost[j], n);
    }
  }

  lemma PairEntry(raw: Draws, m: Metadata, start: nat, a: nat, n: nat)
    requires ValidMetadata(m) && m.sumCount > CAUCHY_THRESHOLD
    ensures var light := start + m.sumCount - m.ldpcCount;
            var d, e := Draw(raw, m.row, m.ldpcCount, 2 * n), Draw(raw, m.row, m.ldpcCount, 2 * n + 1);
            Add(Add(PartialEntry(raw, m, start, a, n), When(light + d == a, ONE)), When(light + e == a, GetRowValue(m.row)))
            == PartialEntry(raw, m, start, a, n + 1)
  {
    hide Add, DenseCoefficient, GetRowValue, Draw, Wrap;
    var light := start + m.sumCount - m.ldpcCount;
    var d, e := Draw(raw, m.row, m.ldpcCount, 2 * n), Draw(raw, m.row, m.ldpcCount, 2 * n + 1);
    var w, v := When(light + d == a, ONE), When(light + e == a, GetRowValue(m.row));
    AddZero(PartialEntry(raw, m, start, a, n));
    if light <= a < start + m.sumCount {
      var dense, l := DenseCoefficient(m.row, Wrap(a)), LightCoefficient(raw, m.row, m.ldpcCount, a - light, n);
      AddAssoc(dense, l, w);
      AddAssoc(dense, Add(l, w), v);
      AddAssoc(l, w, v);
    }
  }

  // Adds c to the matrix column of an element, if that was lost and its column
  // is among the new ones from startMatrixColumn on.
  method AddHit(w: DecoderPacketWindow, element: nat, c: Gf, startMatrixColumn: nat, row: seq<Gf>, ghost lost: seq<nat>, ghost first: nat, ghost end: nat)
    returns (r: seq<Gf>)
    requires Indexed(w.Originals, w.MatrixColumns, w.Base, first, end, lost) && first <= element < end
    requires startMatrixColumn <= |lost| && |row| == |lost| - startMatrixColumn
    requires forall i, j :: 0 <= i < j < |lost| ==> lost[i] < lost[j]
    ensures r == Hit(row, lost[startMatrixColumn..], w.Base + element, c)
  {
    hide Add, Hit;
    ghost var added := lost[startMatrixColumn..];
    r := row;
    if w.Originals[element].None? {
      var matrixColumn := w.MatrixColumns[element];
      if matrixColumn >= startMatrixColumn {
        var k := matrixColumn - startMatrixColumn;
        HitOne(row, added, w.Base + element, c, k);
        r := row[k := Add(row[k], c)];
      } else {
        HitNone(row, added, w.Base + element, c);
      }
    } else {
      HitNone(row, added, w.Base + element, c);
    }
  }

  // The row of a Siamese packet over the columns from startMatrixColumn on.
  method GenerateSiameseRow(w: DecoderPacketWindow, raw: Draws, r: Recovery, columns: seq<nat>, startMatrixColumn: nat, ghost lost: seq<nat>, ghost start: nat)
    returns (row: seq<Gf>)
    requires ValidMetadata(r.metadata) && IsSiamese(r) && Wrap(start) == r.metadata.columnStart
    requires start + r.metadata.sumCount == w.Base + r.elementEnd && r.elementStart + r.metadata.ldpcCount == r.elementEnd
    requires After(lost, start) && Numbers(columns, lost) && startMatrixColumn <= |columns|
    requires Indexed(w.Originals, w.MatrixColumns, w.Base, r.elementStart, r.elementEnd, lost)
    ensures row == EntryRow(raw, r.metadata, start, lost[startMatrixColumn..])
  {
    hide Add, Wrap, Draw, Hit, PartialRow, EntryRow, PairCount, GetRowValue, After, Indexed;
    var m, added := r.metadata, columns[startMatrixColumn..];
    ghost var new_ := lost[startMatrixColumn..];
    AfterSuffix(lost, start, startMatrixColumn);
    row := GenerateDenseColumns(raw, m, added, new_, start);
    var rx := GetRowValue(m.row);
    for k := 0 to PairCount(m.ldpcCount)
      invariant row == PartialRow(raw, m, start, new_, k)
    {
      PairHits(raw, m, start, new_, k);
      row := AddHit(w, r.elementStart + Draw(raw, m.row, m.ldpcCount, 2 * k), ONE, startMatrixColumn, row, lost, r.elementStart, r.elementEnd);
      row := AddHit(w, r.elementStart + Draw(raw, m.row, m.ldpcCount, 2 * k + 1), rx, startMatrixColumn, row, lost, r.elementStart, r.elementEnd);
    }
    PartialIsEntry(raw, m, start, new_);
  }

  lemma AfterSuffix(lost: seq<nat>, start: nat, k: nat)
    requires After(lost, start) && k <= |lost|
    ensures After(lost[k..], start)
    ensures forall i, j :: 0 <= i < j < |lost| ==> lost[i] < lost[j]
  {}

  // The row of any recovery packet over the columns from startMatrixColumn on.
  method GenerateRow(w: DecoderPacketWindow, raw: Draws, r: Recovery, columns: seq<nat>, startMatrixColumn: nat, ghost lost: seq<nat>, ghost start: nat)
    returns (row: seq<Gf>)
    requires ValidMetadata(r.metadata) && Wrap(start) == r.metadata.columnStart
    requires start + r.metadata.sumCount == w.Base + r.elementEnd && r.elementStart + r.metadata.ldpcCount == r.elementEnd
    requires After(lost, start) && Numbers(columns, lost) && startMatrixColumn <= |columns|
    requires Indexed(w.Originals, w.MatrixColumns, w.Base, r.elementStart, r.elementEnd, lost)
    ensures row == EntryRow(raw, r.metadata, start, lost[startMatrixColumn..])
  {
    hide Wrap, EntryRow, After, Indexed;
    if r.metadata.sumCount <= CAUCHY_THRESHOLD {
      AfterSuffix(lost, start, startMatrixColumn);
      row := GenerateShortRow(raw, r.metadata, columns[startMatrixColumn..], lost[startMatrixColumn..], start);
    } else {
      row := GenerateSiameseRow(w, raw, r, columns, startMatrixColumn, lost, start);
    }
  }

  // ---- taking out what was received ----

  // A parity or Cauchy packet: adds every received packet of its range again.
  method EliminateShort(w: DecoderPacketWindow, raw: Draws, r: Recovery, ghost start: nat) returns (payload: Gf)
    requires w.WindowValid() && ValidMetadata(r.metadata) && !IsSiamese(r) && Wrap(start) == r.metadata.columnStart
    requires start == w.Base + r.elementStart && r.elementStart + r.metadata.sumCount == r.elementEnd <= w.Count
    ensures payload == Add(r.payload, Dot(CoefficientRow(raw, r.metadata), Mask(w.History, w.Received)[start..start + r.metadata.sumCount]))
  {
    hide Add, Mul, Dot, CoefficientRow, Coefficient, CauchyElement, Wrap;
    ghost var g, c := Mask(w.History, w.Received), CoefficientRow(raw, r.metadata);
    payload := r.payload;
    EmptyDot(c[..0], g[start..start]);
    AddZero(payload);
    for j := r.elementStart to r.elementEnd
      invariant var k := j - r.elementStart;
                payload == Add(r.payload, Dot(c[..k], g[start..start + k]))
    {
      payload := EliminateOne(w, raw, r.metadata, j, payload, r.elementStart, g, r.payload);
    }
    assert c[..r.metadata.sumCount] == c;
  }

  method EliminateOne(w: DecoderPacketWindow, raw: Draws, m: Metadata, j: nat, payload: Gf, ghost elementStart: nat, ghost g: Row, ghost from_: Gf) returns (r: Gf)
    requires w.WindowValid() && ValidMetadata(m) && m.sumCount <= CAUCHY_THRESHOLD && Wrap(w.Base + elementStart) == m.columnStart
    requires elementStart <= j < elementStart + m.sumCount <= w.Count && g == Mask(w.History, w.Received)
    requires var k, start := j - elementStart, w.Base + elementStart;
             payload == Add(from_, Dot(CoefficientRow(raw, m)[..k], g[start..start + k]))
    ensures var k, start := j + 1 - elementStart, w.Base + elementStart;
            r == Add(from_, Dot(CoefficientRow(raw, m)[..k], g[start..start + k]))
  {
    hide Add, Mul, Dot, CoefficientRow, Coefficient, CauchyElement, Wrap;
    ghost var k, start := j - elementStart, w.Base + elementStart;
    RowSnoc(raw, m, g, start, k);
    ShortCoefficient(raw, m, start, k);
    ghost var t := Mul(Coefficient(raw, m, k), g[start + k]);
    AddAssoc(from_, Dot(CoefficientRow(raw, m)[..k], g[start..start + k]), t);
    AddWrapped(j, w.Base);
    if w.Originals[j].Some? {
      MulOne(w.Originals[j].value);
      r := Add(payload,
               if m.row == 0 then w.Originals[j].value
               else Mul(CauchyElement(m.row - 1, AddColumns(j, w.ColumnStart) % CAUCHY_MAX_COLUMNS), w.Originals[j].value));
    } else {
      MulZero(Coefficient(raw, m, k));
      AddZero(payload);
      r := payload;
    }
  }

  lemma ShortCoefficient(raw: Draws, m: Metadata, start: nat, k: nat)
    requires ValidMetadata(m) && m.sumCount <= CAUCHY_THRESHOLD && Wrap(start) == m.columnStart && k < m.sumCount
    ensures Coefficient(raw, m, k) == if m.row == 0 then ONE else CauchyElement(m.row - 1, Wrap(start + k) % CAUCHY_MAX_COLUMNS)
  {
    hide CauchyElement;
    AddWrapped(k, start);
  }
}
