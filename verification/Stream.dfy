// The stream sender: it interleaves data chunks with repair symbols at a fixed
// ratio of f repair symbols to d chunks.
module Stream {
  import opened Columns

  datatype Symbol<T> = Original(chunk: T, index: nat) | Repair | NothingPending

  datatype ReliabilityLevel = UnderRatio | AtRatio | AllAcked

  function Ceil(x: nat, f: nat): (y: nat)
    requires f > 0
    ensures (y - 1) * f < x <= y * f
  {
    CeilBounds(x, f);
    (x + f - 1) / f
  }

  lemma CeilBounds(x: nat, f: nat)
    requires f > 0
    ensures var y := (x + f - 1) / f; (y - 1) * f < x <= y * f
  {}

  lemma CeilIs(x: nat, f: nat, n: nat)
    requires f > 0 && (n - 1) * f < x <= n * f
    ensures Ceil(x, f) == n
  {
    var y: int := Ceil(x, f);
    LessTimes(n - 1, y, f);
    LessTimes(y - 1, n, f);
  }

  lemma LessTimes(a: int, b: int, f: nat)
    ensures a * f < b * f ==> a < b
  {
    assert b * f - a * f == (b - a) * f;
  }

  // ---- what was sent ----

  ghost function Originals<T>(log: seq<Symbol<T>>): (n: nat) {
    if log == [] then 0 else Originals(log[..|log| - 1]) + (if log[|log| - 1].Original? then 1 else 0)
  }

  ghost function Repairs<T>(log: seq<Symbol<T>>): (n: nat) {
    if log == [] then 0 else Repairs(log[..|log| - 1]) + (if log[|log| - 1].Repair? then 1 else 0)
  }

  lemma Logged<T>(log: seq<Symbol<T>>, s: Symbol<T>)
    ensures Originals(log + [s]) == Originals(log) + (if s.Original? then 1 else 0)
    ensures Repairs(log + [s]) == Repairs(log) + (if s.Repair? then 1 else 0)
  {
    assert (log + [s])[..|log|] == log;
  }

  // n chunks and r repair symbols: a repair symbol is due, or none is, and it was
  // the last chunk that made it due.
  ghost predicate Paced(n: nat, r: nat, f: nat, d: nat) {
    r * d <= n * f < (r + 1) * d + f
  }

  ghost predicate Due(n: nat, r: nat, f: nat, d: nat) {
    (r + 1) * d <= n * f
  }

  // At that pace the number of repair symbols is the ratio's share, rounded down,
  // but for a symbol that is due.
  lemma PacedShare(n: nat, r: nat, f: nat, d: nat)
    requires 0 < f <= d && Paced(n, r, f, d)
    ensures n * f / d == r + (if Due(n, r, f, d) then 1 else 0)
  {
    var share := r + if Due(n, r, f, d) then 1 else 0;
    assert (r + 2) * d == (r + 1) * d + d;
    assert share * d <= n * f < (share + 1) * d;
    QuotientIs(n * f, d, share);
  }

  lemma QuotientIs(x: nat, d: nat, q: nat)
    requires d > 0 && q * d <= x < (q + 1) * d
    ensures x / d == q
  {
    var k := x / d;
    assert k * d <= x < (k + 1) * d;
    LessTimes(k, q + 1, d);
    LessTimes(q, k + 1, d);
  }

  // The counters of the segment, 0 1 .. d | 1 .. d | .., and 0 .. f - 1 | 0 ..
  ghost function ChunkIndex(n: nat, d: nat): (c: nat)
    requires d > 0
  {
    if n == 0 then 0 else (n - 1) % d + 1
  }

  // They tell exactly when a symbol is due.
  lemma DueInSegment(n: nat, r: nat, f: nat, d: nat)
    requires 2 <= f <= d && Paced(n, r, f, d)
    ensures ChunkIndex(n, d) == Ceil((r % f + 1) * d, f) <==> Due(n, r, f, d)
  {
    hide *;
    Decompose(n, d);
    DivMod(r, f);
    var c := ChunkIndex(n, d);
    InSegment(c, Segment(n, d), r % f, r / f, f, d);
    CeilIff((r % f + 1) * d, f, c);
  }

  ghost function Segment(n: nat, d: nat): (s: nat)
    requires d > 0
  {
    if n == 0 then 0 else (n - 1) / d
  }

  lemma Decompose(n: nat, d: nat)
    requires d > 0
    ensures var c, s := ChunkIndex(n, d), Segment(n, d); n == s * d + c && c <= d && (c == 0 ==> s == 0)
  {}

  lemma DivMod(r: nat, f: nat)
    requires f > 0
    ensures r == r / f * f + r % f && r % f < f
  {}

  lemma CeilIff(x: nat, f: nat, c: nat)
    requires f > 0
    ensures Ceil(x, f) == c <==> (c - 1) * f < x <= c * f
  {
    hide Ceil;
    if (c - 1) * f < x <= c * f {
      CeilIs(x, f, c);
    }
  }

  lemma InSegment(c: nat, s: nat, k: nat, q: nat, f: nat, d: nat)
    requires 2 <= f <= d && k < f && c <= d && (c == 0 ==> s == 0)
    requires Paced(s * d + c, q * f + k, f, d)
    ensures (c - 1) * f < (k + 1) * d <= c * f <==> Due(s * d + c, q * f + k, f, d)
  {
    var fd := f * d;
    Expand(s, d, c, f);
    Expand(q, f, k, d);
    Expand(q, f, k + 1, d);
    Products(c, d, f);
    Products(k + 1, f, d);
    Products(2, f, d);
    Segments(s, q, fd);
    assert (q * f + k + 1) * d == (q * f + (k + 1)) * d;
    OneMore(q * f + k, d);
    OneMore(k, d);
    Linear(c * f, k * d, s * fd, q * fd, f, d, fd);
  }

  lemma OneMore(k: nat, d: nat)
    ensures (k + 1) * d == k * d + d
  {}

  lemma Expand(q: nat, f: nat, k: nat, d: nat)
    ensures (q * f + k) * d == q * (f * d) + k * d == q * (d * f) + k * d
    ensures (k - 1) * d == k * d - d
  {
    assert (q * f + k) * d == q * f * d + k * d;
    assert f * d == d * f;
    assert q * f * d == q * (f * d);
  }

  lemma Products(c: nat, d: nat, f: nat)
    requires c <= d
    ensures c * f <= d * f && (c > 0 ==> c * f >= f) && (c == 0 ==> c * f == 0)
  {
    assert d * f - c * f == (d - c) * f;
  }

  lemma Linear(chunks: nat, repairs: nat, S: nat, Q: nat, f: nat, d: nat, fd: nat)
    requires 2 <= f <= d && 2 * d <= fd && chunks <= fd && repairs + d <= fd
    requires chunks >= f || chunks == S == 0
    requires Q + fd <= S || Q == S || Q == S + fd || S + fd + fd <= Q
    requires Q + repairs <= S + chunks < Q + repairs + d + f
    ensures chunks - f < repairs + d <= chunks <==> Q + repairs + d <= S + chunks
  {}

  lemma Segments(s: nat, q: nat, fd: nat)
    ensures q * fd + fd <= s * fd || q * fd == s * fd || q * fd == s * fd + fd || s * fd + fd + fd <= q * fd
  {
    assert (s + 1) * fd == s * fd + fd && (s + 2) * fd == s * fd + fd + fd && (q + 1) * fd == q * fd + fd;
    if s + 2 <= q {
      Products(s + 2, q, fd);
    } else if q < s {
      Products(q + 1, s, fd);
    }
  }

  lemma Multiples(m: nat, r: nat, f: nat, d: nat)
    requires 2 <= f <= d && Paced(m * d, r, f, d)
    ensures r % f == 0 <==> r == m * f
  {
    Expand(m, d, 0, f);
    Expand(m, f, 0, d);
    assert (m * d) * f == (m * f) * d;
    OneMore(r, d);
    OneMore(r + 1, d);
    LessTimes(m * f, r + 2, d);
    LessTimes(r - 1, m * f, d);
    Expand(0, 0, r, d);
    NearMultiple(m, r, f);
  }

  lemma NearMultiple(m: nat, r: nat, f: nat)
    requires 2 <= f && r <= m * f < r + 2
    ensures r % f == 0 <==> r == m * f
  {
    if r == m * f {
      QuotientIs(r, f, m);
    } else {
      OneMore(m - 1, f);
      QuotientIs(r, f, m - 1);
    }
  }

  // A chunk boundary of a segment that is also a symbol boundary is at the ratio.
  lemma AtRatioIs(n: nat, r: nat, f: nat, d: nat)
    requires 2 <= f <= d && Paced(n, r, f, d)
    ensures ChunkIndex(n, d) % d == 0 && r % f == 0 <==> n % d == 0 && r * d == n * f
  {
    WholeSegments(n, d);
    if n % d == 0 {
      var m := n / d;
      assert n == m * d;
      Multiples(m, r, f, d);
      assert (m * d) * f == (m * f) * d;
      LessTimes(r, m * f, d);
      LessTimes(m * f, r, d);
    }
  }

  // One step of a counter modulo d.
  lemma NextRemainder(n: nat, d: nat)
    requires d > 0
    ensures (n + 1) % d == if n % d + 1 < d then n % d + 1 else 0
  {
    var q, k := n / d, n % d;
    OneMore(q, d);
    RemainderIs(n + 1, d, if k + 1 < d then q else q + 1, if k + 1 < d then k + 1 else 0);
  }

  lemma RemainderIs(x: nat, d: nat, q: nat, k: nat)
    requires d > 0 && x == q * d + k && k < d
    ensures x % d == k
  {
    OneMore(q, d);
    QuotientIs(x, d, q);
  }

  lemma WholeSegments(n: nat, d: nat)
    requires d > 0
    ensures ChunkIndex(n, d) % d == 0 <==> n % d == 0
  {
    if n > 0 {
      NextRemainder(n - 1, d);
      NextRemainder((n - 1) % d, d);
      RemainderIs((n - 1) % d, d, 0, (n - 1) % d);
    }
  }

  lemma NextChunkIndex(n: nat, d: nat)
    requires d > 0
    ensures ChunkIndex(n + 1, d) == ChunkIndex(n, d) % d + 1
  {
    if n > 0 {
      NextRemainder(n - 1, d);
      NextRemainder((n - 1) % d, d);
      RemainderIs((n - 1) % d, d, 0, (n - 1) % d);
    }
  }

  lemma NextRepairIndex(r: nat, f: nat)
    requires f > 0
    ensures (r + 1) % f == (r % f + 1) % f
  {
    NextRemainder(r, f);
    NextRemainder(r % f, f);
    RemainderIs(r % f, f, 0, r % f);
  }

  lemma PacedNext(n: nat, r: nat, f: nat, d: nat)
    requires 2 <= f <= d && Paced(n, r, f, d)
    ensures Due(n, r, f, d) ==> Paced(n, r + 1, f, d) && n == Ceil((r + 1) * d, f)
    ensures !Due(n, r, f, d) ==> Paced(n + 1, r, f, d)
  {
    OneMore(n, f);
    OneMore(r + 1, d);
    if Due(n, r, f, d) {
      OneMore(n - 1, f);
      CeilIs((r + 1) * d, f, n);
    }
  }

  // With a single repair symbol per segment the counters cannot tell that it was
  // sent: another one is due at once, for ever.
  lemma OnePerSegmentNeverStops(r: nat, d: nat)
    requires d >= 1
    ensures ChunkIndex(d, d) == Ceil((r % 1 + 1) * d, 1)
  {
    CeilIs(d, 1, d);
  }

  predicate Divides(k: nat, n: nat) {
    k > 0 && n % k == 0
  }

  // The ratio is a rational number, which is kept in lowest terms.
  ghost predicate LowestTerms(f: nat, d: nat) {
    forall k: nat :: Divides(k, f) && Divides(k, d) ==> k == 1
  }

  class ContinuousStreamEncoder<T> {
    const F: nat
    const D: nat
    var Pending: seq<T>
    var ReceiverExpects: nat
    var NextIndex: nat
    var SegmentChunkIndex1: nat
    var SegmentFecIndex: nat
    ghost var Sent: seq<Symbol<T>>

    ghost predicate Valid()
      reads this
    {
      var n, r := Originals(Sent), Repairs(Sent);
      && 2 <= F <= D && LowestTerms(F, D) && Paced(n, r, F, D)
      && SegmentChunkIndex1 == ChunkIndex(n, D) && SegmentFecIndex == r % F && NextIndex == Wrap(n)
    }

    constructor (f: nat, d: nat)
      requires 2 <= f <= d && LowestTerms(f, d)
      ensures Valid() && F == f && D == d && Sent == [] && Pending == []
    {
      F, D, Pending, Sent := f, d, [], [];
      ReceiverExpects, NextIndex, SegmentChunkIndex1, SegmentFecIndex := 0, 0, 0, 0;
    }

    method QueueChunk(chunk: T)
      requires Valid()
      modifies this`Pending
      ensures Valid() && Pending == old(Pending) + [chunk]
    {
      Pending := Pending + [chunk];
    }

    predicate IsNextSymbolFec()
      requires Valid()
      reads this
      ensures IsNextSymbolFec() <==> Due(Originals(Sent), Repairs(Sent), F, D)
    {
      DueInSegment(Originals(Sent), Repairs(Sent), F, D);
      SegmentChunkIndex1 == Ceil((SegmentFecIndex + 1) * D, F)
    }

    // In every state the repair symbols sent are the chunks' share, or one less
    // exactly when the next symbol is one.
    lemma Share()
      requires Valid()
      ensures Originals(Sent) * F / D == Repairs(Sent) + if IsNextSymbolFec() then 1 else 0
    {
      PacedShare(Originals(Sent), Repairs(Sent), F, D);
    }

    function Level(): (level: ReliabilityLevel)
      requires Valid()
      reads this
      ensures level == AtRatio <==>
              ReceiverExpects != NextIndex && Originals(Sent) % D == 0 && Repairs(Sent) * D == Originals(Sent) * F
      ensures level == AllAcked <==> ReceiverExpects == NextIndex
      ensures level == UnderRatio ==> Repairs(Sent) * D < Originals(Sent) * F || Originals(Sent) % D != 0
    {
      AtRatioIs(Originals(Sent), Repairs(Sent), F, D);
      if ReceiverExpects == NextIndex then AllAcked
      else if SegmentChunkIndex1 % D == 0 && SegmentFecIndex == 0 then AtRatio
      else UnderRatio
    }

    // The next symbol; a repair symbol follows the chunk that made it due. With
    // nothing to send the source throws before it changes anything.
    method GetSymbol() returns (symbol: Symbol<T>)
      requires Valid()
      modifies this
      ensures Valid() && ReceiverExpects == old(ReceiverExpects)
      ensures var n, r, fec := Originals(old(Sent)), Repairs(old(Sent)), old(IsNextSymbolFec());
              && (symbol.Repair? <==> fec) && (fec ==> n == Ceil((r + 1) * D, F))
              && (symbol.NothingPending? <==> !fec && old(Pending) == [])
              && (symbol.Original? ==> old(Pending) == [symbol.chunk] + Pending && symbol.index == Wrap(n))
              && (!symbol.Original? ==> Pending == old(Pending))
              && Sent == if symbol.NothingPending? then old(Sent) else old(Sent) + [symbol]
    {
      hide Originals, Repairs, Paced, Due, ChunkIndex, Ceil;
      ghost var n, r := Originals(Sent), Repairs(Sent);
      PacedNext(n, r, F, D);
      if IsNextSymbolFec() {
        NextRepairIndex(r, F);
        SegmentFecIndex := (SegmentFecIndex + 1) % F;
        symbol := Repair;
        Logged(Sent, symbol);
        Sent := Sent + [symbol];
      } else if Pending == [] {
        symbol := NothingPending;
      } else {
        NextChunkIndex(n, D);
        var index := NextIndex;
        symbol := Original(Pending[0], index);
        Pending := Pending[1..];
        NextIndex := AddColumns(index, 1);
        SegmentChunkIndex1 := SegmentChunkIndex1 % D + 1;
        Logged(Sent, symbol);
        AddWrapped(1, n);
        Sent := Sent + [symbol];
      }
    }

    method ProcessAck(receiverExpects: nat)
      requires Valid()
      modifies this`ReceiverExpects
      ensures Valid() && ReceiverExpects == receiverExpects
    {
      ReceiverExpects := receiverExpects;
    }
  }
}
