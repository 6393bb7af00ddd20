// What the compressed rows mean: a residual for each row that is the row's defect
// at first, and that diagonalisation keeps equivalent, row by row.
module PeelSystem {
  import opened Collections
  import opened Gf256
  import opened Weyl
  import opened Peels
  import opened PeelAlgebra

  // The rows received: their peel columns, their three mixing columns and their
  // data; and how peeling placed rows and columns.
  datatype System = System(columns: seq<seq<nat>>, mixes: seq<seq<nat>>, input: seq<Gf>, mixCount: nat,
                           peeledRows: seq<nat>, peeledColumns: seq<nat>, deferredRows: seq<nat>, deferredColumns: seq<nat>)

  ghost function BlockCount(s: System): nat {
    |s.peeledColumns| + |s.deferredColumns|
  }

  ghost function Width(s: System): nat {
    |s.deferredColumns| + s.mixCount
  }

  ghost predicate Ordered(s: System, k: nat)
    requires k < |s.peeledRows| == |s.peeledColumns| && s.peeledRows[k] < |s.columns|
  {
    var columns, c := s.columns[s.peeledRows[k]], s.peeledColumns[k];
    c in columns && forall d :: d in columns ==> d == c || d in s.peeledColumns[..k] || d in s.deferredColumns
  }

  ghost predicate WellFormed(s: System) {
    && |s.columns| == |s.mixes| == |s.input| && |s.peeledRows| == |s.peeledColumns|
    && Share(s.peeledRows, s.deferredRows, |s.columns|) && Share(s.peeledColumns, s.deferredColumns, BlockCount(s))
    && (forall r :: 0 <= r < |s.columns| ==> Distinct(s.columns[r]) && Within(s.columns[r], BlockCount(s)))
    && (forall r :: 0 <= r < |s.mixes| ==> |s.mixes[r]| == 3 && Within(s.mixes[r], s.mixCount))
    && (forall k :: 0 <= k < |s.peeledRows| ==> s.peeledRows[k] < |s.columns| && Ordered(s, k))
  }

  // An assignment to the columns: to the blocks and to the mixing columns.
  datatype Assignment = Assignment(blocks: seq<Gf>, mixing: seq<Gf>)

  // The columns that are left after peeling.
  ghost function Left(s: System, a: Assignment): (y: seq<Gf>)
    ensures |y| == |s.deferredColumns| + |a.mixing|
  {
    seq(|s.deferredColumns|, j requires 0 <= j < |s.deferredColumns| => Value(a.blocks, s.deferredColumns[j])) + a.mixing
  }

  function MixSum(mix: seq<nat>, mixing: seq<Gf>): Gf
    requires |mix| == 3
  {
    Add(Add(Value(mixing, mix[0]), Value(mixing, mix[1])), Value(mixing, mix[2]))
  }

  ghost function Every(s: System): set<nat> {
    Elements(s.peeledColumns) + Elements(s.deferredColumns)
  }

  // A row is the sum of its columns; its defect is what it is off its data.
  ghost function Defect(s: System, r: nat, a: Assignment): Gf
    requires r < |s.columns| == |s.mixes| == |s.input| && |s.mixes[r]| == 3
  {
    Add(Add(Part(s.columns[r], Every(s), a.blocks), MixSum(s.mixes[r], a.mixing)), s.input[r])
  }

  // ---- the compressed rows ----

  datatype Diagonal = Diagonal(matrix: seq<seq<bool>>, blocks: seq<Gf>, copied: seq<bool>)

  function PlaceOf(list: seq<nat>, r: nat): (k: nat)
    ensures k <= |list| && (k < |list| ==> list[k] == r) && (k == |list| <==> r !in list)
  {
    if list == [] then 0 else if list[0] == r then 0 else PlaceOf(list[1..], r) + 1
  }

  lemma PlaceAt(list: seq<nat>, k: nat)
    requires Distinct(list) && k < |list|
    ensures PlaceOf(list, list[k]) == k
  {}

  ghost predicate Sized(s: System, d: Diagonal) {
    && |d.matrix| == |s.columns| == |d.copied| && |d.blocks| == BlockCount(s) + s.mixCount
    && forall r :: 0 <= r < |d.matrix| ==> |d.matrix[r]| == Width(s)
  }

  // The value a peeled row has so far: its data, until something was added.
  function ValueSoFar(input: seq<Gf>, d: Diagonal, r: nat, c: nat): Gf
    requires r < |input| == |d.copied|
  {
    if d.copied[r] then Value(d.blocks, c) else input[r]
  }

  // With i rows of the peeled list done. A peeled row that is done has no column
  // left to substitute but its own.
  ghost function Remaining(s: System, r: nat, i: nat): set<nat>
    requires i <= |s.peeledColumns| == |s.peeledRows|
  {
    var k := PlaceOf(s.peeledRows, r);
    Elements(s.peeledColumns) - Elements(s.peeledColumns[..if k < i then k else i])
  }

  ghost function Right(s: System, d: Diagonal, r: nat, i: nat): Gf
    requires WellFormed(s) && Sized(s, d) && r < |s.columns| && i <= |s.peeledRows|
  {
    var k := PlaceOf(s.peeledRows, r);
    if k < i then Value(d.blocks, s.peeledColumns[k])
    else if k < |s.peeledRows| then ValueSoFar(s.input, d, r, s.peeledColumns[k])
    else Add(s.input[r], Part(s.columns[r], Elements(s.peeledColumns[..i]), d.blocks))
  }

  // The mixing columns of a peeled row enter the matrix when it is its turn.
  ghost function MixToCome(s: System, r: nat, i: nat, a: Assignment): Gf
    requires r < |s.mixes| && |s.mixes[r]| == 3
  {
    if i <= PlaceOf(s.peeledRows, r) < |s.peeledRows| then MixSum(s.mixes[r], a.mixing) else ZERO
  }

  ghost function Residual(s: System, d: Diagonal, r: nat, i: nat, a: Assignment): Gf
    requires WellFormed(s) && Sized(s, d) && r < |s.columns| && i <= |s.peeledRows| && |a.mixing| == s.mixCount
  {
    Add(Add(SumTo(d.matrix[r], Left(s, a), Width(s)), Part(s.columns[r], Remaining(s, r, i), a.blocks)),
        Add(MixToCome(s, r, i, a), Right(s, d, r, i)))
  }

  // ---- before diagonalisation ----

  ghost function Mixed(s: System, row: seq<bool>, mix: seq<nat>): (flipped: seq<bool>)
    requires |row| == Width(s) && |mix| == 3 && Within(mix, s.mixCount)
    ensures |flipped| == |row|
  {
    var n := |s.deferredColumns|;
    Flip(Flip(Flip(row, n + mix[0]), n + mix[1]), n + mix[2])
  }

  lemma MixedSum(s: System, row: seq<bool>, mix: seq<nat>, a: Assignment)
    requires |row| == Width(s) && |mix| == 3 && Within(mix, s.mixCount) && |a.mixing| == s.mixCount
    ensures SumTo(Mixed(s, row, mix), Left(s, a), Width(s)) == Add(SumTo(row, Left(s, a), Width(s)), MixSum(mix, a.mixing))
  {
    hide *;
    MixingAt(s, mix, 0, a);
    MixingAt(s, mix, 1, a);
    MixingAt(s, mix, 2, a);
    MixingParts(s, row, mix, a);
    var n := |s.deferredColumns|;
    FlipThree(row, n + mix[0], n + mix[1], n + mix[2], Left(s, a));
  }

  lemma MixingParts(s: System, row: seq<bool>, mix: seq<nat>, a: Assignment)
    requires |row| == Width(s) && |mix| == 3 && Within(mix, s.mixCount) && |a.mixing| == s.mixCount
    ensures var n := |s.deferredColumns|;
            && n + mix[0] < |row| && n + mix[1] < |row| && n + mix[2] < |row| && |Left(s, a)| == |row|
            && Mixed(s, row, mix) == Flip(Flip(Flip(row, n + mix[0]), n + mix[1]), n + mix[2])
            && MixSum(mix, a.mixing) == Add(Add(Value(a.mixing, mix[0]), Value(a.mixing, mix[1])), Value(a.mixing, mix[2]))
  {
    hide Add, SumTo, Value, Flip;
  }

  lemma FlipThree(row: seq<bool>, i: nat, j: nat, k: nat, y: seq<Gf>)
    requires i < |row| && j < |row| && k < |row| && |y| == |row|
    ensures SumTo(Flip(Flip(Flip(row, i), j), k), y, |row|) == Add(SumTo(row, y, |row|), Add(Add(y[i], y[j]), y[k]))
  {
    hide Add, SumTo, Flip;
    var one := Flip(row, i);
    var two := Flip(one, j);
    FlipSum(row, i, y, |row|);
    FlipSum(one, j, y, |row|);
    FlipSum(two, k, y, |row|);
    AddAssoc(SumTo(row, y, |row|), y[i], y[j]);
    AddAssoc(SumTo(row, y, |row|), Add(y[i], y[j]), y[k]);
  }

  lemma MixingAt(s: System, mix: seq<nat>, i: nat, a: Assignment)
    requires |mix| == 3 && Within(mix, s.mixCount) && |a.mixing| == s.mixCount && i < 3
    ensures mix[i] < s.mixCount && Left(s, a)[|s.deferredColumns| + mix[i]] == Value(a.mixing, mix[i])
  {}

  // The rows' bits of deferred columns only, but for the deferred rows also their
  // mixing columns, and no block copied.
  ghost function DeferredBits(s: System, r: nat): (row: seq<bool>)
    requires r < |s.columns|
    ensures |row| == Width(s)
  {
    seq(Width(s), j requires 0 <= j < Width(s) => j < |s.deferredColumns| && s.deferredColumns[j] in s.columns[r])
  }

  lemma DeferredBitsSum(s: System, r: nat, a: Assignment)
    requires WellFormed(s) && r < |s.columns| && |a.mixing| == s.mixCount
    ensures SumTo(DeferredBits(s, r), Left(s, a), Width(s)) == Part(s.columns[r], Elements(s.deferredColumns), a.blocks)
  {
    hide Part, Value;
    var bits, y, n := DeferredBits(s, r), Left(s, a), |s.deferredColumns|;
    assert s.deferredColumns[..n] == s.deferredColumns;
    DeferredSum(s.columns[r], s.deferredColumns, bits, a.blocks, y, n);
    SumZeros(bits, y, n, Width(s));
  }

  lemma {:induction false} SumZeros(bits: seq<bool>, y: seq<Gf>, m: nat, n: nat)
    requires m <= n <= |bits| && n <= |y| && forall j :: m <= j < n ==> !bits[j]
    ensures SumTo(bits, y, n) == SumTo(bits, y, m)
  {
    hide Add;
    if m < n {
      SumZeros(bits, y, m, n - 1);
      AddZero(SumTo(bits, y, n - 1));
    }
  }

  ghost predicate Started(s: System, d: Diagonal)
    requires WellFormed(s)
  {
    && Sized(s, d)
    && forall r :: 0 <= r < |s.columns| ==>
         if r in s.peeledRows then d.matrix[r] == DeferredBits(s, r) && !d.copied[r]
         else d.matrix[r] == Mixed(s, DeferredBits(s, r), s.mixes[r])
  }

  lemma StartedResidual(s: System, d: Diagonal, r: nat, a: Assignment)
    requires WellFormed(s) && Started(s, d) && r < |s.columns| && |a.mixing| == s.mixCount
    ensures Residual(s, d, r, 0, a) == Defect(s, r, a)
  {
    hide Add, SumTo, Part, MixSum, DeferredBits, Left, Value, Mixed;
    var columns, mix := s.columns[r], MixSum(s.mixes[r], a.mixing);
    DeferredBitsSum(s, r, a);
    MixedSum(s, DeferredBits(s, r), s.mixes[r], a);
    assert s.peeledColumns[..0] == [] && Elements([]) == {};
    assert Remaining(s, r, 0) == Elements(s.peeledColumns);
    EveryPart(s, r, a.blocks);
    PartNone(columns, Elements(s.peeledColumns[..0]), d.blocks);
    AddZero(s.input[r]);
    var p, q, z := Part(columns, Elements(s.peeledColumns), a.blocks), Part(columns, Elements(s.deferredColumns), a.blocks), s.input[r];
    if r in s.peeledRows {
      AddComm(q, p);
      AddAssoc(Add(p, q), mix, z);
    } else {
      AddZero(z);
      AddAssoc(q, mix, p);
      AddComm(mix, p);
      AddAssoc(q, p, mix);
      AddComm(q, p);
    }
  }

  lemma EveryPart(s: System, r: nat, x: seq<Gf>)
    requires WellFormed(s) && r < |s.columns|
    ensures Part(s.columns[r], Every(s), x) ==
            Add(Part(s.columns[r], Elements(s.peeledColumns), x), Part(s.columns[r], Elements(s.deferredColumns), x))
  {
    hide Part, Value, Add;
    var n := |s.deferredColumns|;
    assert s.deferredColumns[..n] == s.deferredColumns;
    PartUnion(s.columns[r], Elements(s.peeledColumns), s.deferredColumns, n, x);
  }

  lemma {:induction false} PartUnion(columns: seq<nat>, a: set<nat>, b: seq<nat>, k: nat, x: seq<Gf>)
    requires Distinct(columns) && Distinct(b) && k <= |b| && forall c :: c in b ==> c !in a
    ensures Part(columns, a + Elements(b[..k]), x) == Add(Part(columns, a, x), Part(columns, Elements(b[..k]), x))
  {
    hide Part, Value, Add, Distinct;
    if k == 0 {
      assert b[..0] == [] && a + Elements([]) == a;
      PartNone(columns, Elements(b[..0]), x);
      AddZero(Part(columns, a, x));
    } else {
      PartUnion(columns, a, b, k - 1, x);
      var c, more := b[k - 1], Elements(b[..k - 1]);
      NextElement(b, k - 1);
      assert a + Elements(b[..k]) == a + more + {c} && c !in a + more;
      PartMore(columns, a + more, c, x);
      PartMore(columns, more, c, x);
      AddAssoc(Part(columns, a, x), Part(columns, more, x), Value(x, c));
    }
  }
}
