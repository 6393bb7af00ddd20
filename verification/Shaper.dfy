// The bandwidth shaper: the connection is modelled as a buffer that must not
// overflow and that the recipient drains at a fixed rate. Times are nanoseconds.
module Shaper {
  // One packet sent, and the utilisation it left.
  datatype Send = Send(time: int, bytes: nat, level: nat)

  function Drained(level: nat, elapsed: nat, timePerByte: nat): (l: nat)
    requires timePerByte > 0
  {
    var bytesRead := elapsed / timePerByte;
    if bytesRead > level then 0 else level - bytesRead
  }

  // A link that drains without rounding; its load is counted in bytes times the
  // time a byte takes.
  ghost function DrainedExactly(load: nat, elapsed: nat): (l: nat) {
    if elapsed > load then 0 else load - elapsed
  }

  lemma WholeBytes(elapsed: nat, timePerByte: nat)
    requires timePerByte > 0
    ensures elapsed / timePerByte * timePerByte <= elapsed < (elapsed / timePerByte + 1) * timePerByte
  {
    var q, r := elapsed / timePerByte, elapsed % timePerByte;
    assert elapsed == q * timePerByte + r && 0 <= r < timePerByte;
    Sum(q, 1, timePerByte);
  }

  lemma Difference(a: int, b: int, t: nat)
    ensures a * t - b * t == (a - b) * t
    ensures a <= b ==> a * t <= b * t
    ensures a * t < b * t ==> a < b
  {
    if a <= b {
      NotNegative(b - a, t);
      assert (b - a) * t == b * t - a * t;
    } else {
      NotNegative(a - b, t);
      assert (a - b) * t == a * t - b * t;
    }
  }

  lemma NotNegative(n: nat, t: nat)
    ensures n * t >= 0
  {}

  lemma Sum(a: nat, b: nat, t: nat)
    ensures (a + b) * t == a * t + b * t
  {}

  // Rounding only ever overstates the load.
  lemma DrainedAbove(level: nat, load: nat, elapsed: nat, timePerByte: nat)
    requires timePerByte > 0 && load <= level * timePerByte
    ensures DrainedExactly(load, elapsed) <= Drained(level, elapsed, timePerByte) * timePerByte
  {
    WholeBytes(elapsed, timePerByte);
    DrainedWith(level, load, elapsed, elapsed / timePerByte, timePerByte);
  }

  lemma DrainedWith(level: nat, load: nat, elapsed: nat, q: nat, timePerByte: nat)
    requires timePerByte > 0 && load <= level * timePerByte && q * timePerByte <= elapsed
    ensures DrainedExactly(load, elapsed) <= (if q > level then 0 else level - q) * timePerByte
  {
    var levelTime, readTime := level * timePerByte, q * timePerByte;
    Difference(level, q, timePerByte);
    if q > level {
      assert DrainedExactly(load, elapsed) == 0;
    } else {
      assert (level - q) * timePerByte == levelTime - readTime;
    }
  }

  // The excess bytes are gone exactly when the time they take has passed.
  lemma FitsWhen(level: nat, bytes: nat, size: nat, elapsed: nat, timePerByte: nat)
    requires timePerByte > 0 && bytes <= size
    ensures Drained(level, elapsed, timePerByte) + bytes <= size <==> elapsed >= (level + bytes - size) * timePerByte
  {
    var q, excess := elapsed / timePerByte, level + bytes - size;
    WholeBytes(elapsed, timePerByte);
    Difference(excess, q, timePerByte);
    Difference(q + 1, excess, timePerByte);
  }

  ghost predicate Follows(prev: Send, next: Send, timePerByte: nat)
    requires timePerByte > 0
  {
    prev.time <= next.time && next.level == Drained(prev.level, next.time - prev.time, timePerByte) + next.bytes
  }

  ghost predicate Run(log: seq<Send>, timePerByte: nat)
    requires timePerByte > 0
  {
    && (forall i :: 0 <= i < |log| - 1 ==> Follows(log[i], log[i + 1], timePerByte))
    && (log != [] ==> log[0].bytes <= log[0].level)
  }

  ghost function TotalBytes(log: seq<Send>): (n: nat) {
    if log == [] then 0 else TotalBytes(log[..|log| - 1]) + log[|log| - 1].bytes
  }

  lemma {:induction false} RunLoad(log: seq<Send>, i: nat, j: nat, timePerByte: nat)
    requires timePerByte > 0 && Run(log, timePerByte) && i <= j < |log|
    ensures log[i].time <= log[j].time
    ensures TotalBytes(log[i..j + 1]) * timePerByte <= log[j].level * timePerByte + (log[j].time - log[i].time)
    decreases j
  {
    var part := log[i..j + 1];
    if i < j {
      RunLoad(log, i, j - 1, timePerByte);
      assert part[..|part| - 1] == log[i..j];
      assert Follows(log[j - 1], log[j - 1 + 1], timePerByte);
      LoadStep(TotalBytes(log[i..j]), log[j - 1], log[j], log[j - 1].time - log[i].time, timePerByte);
    } else {
      assert part == [log[i]] && part[..0] == [];
      assert i > 0 ==> Follows(log[i - 1], log[i - 1 + 1], timePerByte);
      Difference(log[i].bytes, log[i].level, timePerByte);
    }
  }

  lemma LoadStep(sent: nat, prev: Send, next: Send, elapsed: int, timePerByte: nat)
    requires timePerByte > 0 && Follows(prev, next, timePerByte)
    requires sent * timePerByte <= prev.level * timePerByte + elapsed
    ensures (sent + next.bytes) * timePerByte <= next.level * timePerByte + elapsed + next.time - prev.time
  {
    var q := (next.time - prev.time) / timePerByte;
    WholeBytes(next.time - prev.time, timePerByte);
    Sum(sent, next.bytes, timePerByte);
    Sum(prev.level, next.bytes, timePerByte);
    Difference(prev.level + next.bytes, q, timePerByte);
    Difference(prev.level + next.bytes - q, next.level, timePerByte);
  }

  // Between any two packets of a run that keeps to the buffer, no more is sent
  // than the buffer holds and the link drains.
  lemma BurstBound(log: seq<Send>, i: nat, j: nat, size: nat, timePerByte: nat)
    requires timePerByte > 0 && Run(log, timePerByte) && i <= j < |log| && forall k :: 0 <= k < |log| ==> log[k].level <= size
    ensures 0 <= log[j].time - log[i].time && TotalBytes(log[i..j + 1]) <= size + (log[j].time - log[i].time) / timePerByte
  {
    RunLoad(log, i, j, timePerByte);
    var n, elapsed := TotalBytes(log[i..j + 1]), log[j].time - log[i].time;
    WholeBytes(elapsed, timePerByte);
    var q := elapsed / timePerByte;
    Difference(log[j].level, size, timePerByte);
    Sum(size, q + 1, timePerByte);
    Difference(n, size + q + 1, timePerByte);
  }

  // ---- in bits, nanoseconds and kilobits per second ----

  // What the link carries in that time, in millionths of a bit.
  ghost function Carried(elapsed: int, kbps: nat): int {
    elapsed * kbps
  }

  const MICRO: nat := 1_000_000

  // Between any two packets of such a run no more bits are sent than the buffer holds
  // and the link carries, but for what rounding the time per byte down lets through:
  // of each byte past the buffer, what that time is short of a byte's.
  lemma LinkBound(log: seq<Send>, i: nat, j: nat, size: nat, timePerByte: nat, kbps: nat)
    requires timePerByte > 0 && Run(log, timePerByte) && i <= j < |log| && forall k :: 0 <= k < |log| ==> log[k].level <= size
    ensures var n, elapsed, short := TotalBytes(log[i..j + 1]), log[j].time - log[i].time, 8 * MICRO - timePerByte * kbps;
            8 * n * MICRO <= 8 * size * MICRO + Carried(elapsed, kbps) + (n - size) * short
  {
    RunLoad(log, i, j, timePerByte);
    var n, elapsed := TotalBytes(log[i..j + 1]), log[j].time - log[i].time;
    Difference(log[j].level, size, timePerByte);
    InBits(n, size, elapsed, timePerByte, kbps);
  }

  lemma InBits(n: nat, size: nat, elapsed: int, timePerByte: nat, kbps: nat)
    requires n * timePerByte <= size * timePerByte + elapsed
    ensures 8 * n * MICRO <= 8 * size * MICRO + Carried(elapsed, kbps) + (n - size) * (8 * MICRO - timePerByte * kbps)
  {
    var d := n - size;
    Difference(n, size, timePerByte);
    Difference(d * timePerByte, elapsed, kbps);
    assert d * timePerByte * kbps == d * (timePerByte * kbps);
    assert d * (8 * MICRO - timePerByte * kbps) == d * (8 * MICRO) - d * (timePerByte * kbps);
  }

  // That much does get through: a full buffer, and then as many bytes as soon as it has
  // room for them.
  lemma LinkBoundReached(size: nat, bytes: nat, timePerByte: nat, kbps: nat)
    requires timePerByte > 0 && 0 < bytes <= size
    ensures var log := [Send(0, size, size), Send(bytes * timePerByte, bytes, size)];
            && Run(log, timePerByte) && TotalBytes(log) == size + bytes
            && 8 * (size + bytes) * MICRO == 8 * size * MICRO + Carried(bytes * timePerByte, kbps) + bytes * (8 * MICRO - timePerByte * kbps)
  {
    var log := [Send(0, size, size), Send(bytes * timePerByte, bytes, size)];
    WholeBytes(bytes * timePerByte, timePerByte);
    Difference((bytes * timePerByte) / timePerByte, bytes, timePerByte);
    Difference(bytes, (bytes * timePerByte) / timePerByte + 1, timePerByte);
    assert log[..1] == [log[0]] && log[..1][..0] == [];
    assert TotalBytes(log[..1]) == size;
    assert bytes * timePerByte * kbps == bytes * (timePerByte * kbps);
    assert bytes * (8 * MICRO - timePerByte * kbps) == bytes * (8 * MICRO) - bytes * (timePerByte * kbps);
  }

  class BandwidthShaper {
    const Kbps: nat
    const BufferSize: nat
    var BufferUtilization: nat
    var BufferUtilizationTp: int
    ghost var Load: nat          // of the exact link, at that time
    ghost var Log: seq<Send>

    ghost predicate Valid()
      reads this
    {
      && 1 <= Kbps <= 8_000_000
      && Load <= BufferUtilization * TimePerByte()
      && Run(Log, TimePerByte())
      && (Log != [] ==> var last := Log[|Log| - 1]; last.time == BufferUtilizationTp && last.level == BufferUtilization)
    }

    // No packet overflowed the buffer.
    ghost predicate WithinBuffer()
      reads this
    {
      BufferUtilization <= BufferSize && forall k :: 0 <= k < |Log| ==> Log[k].level <= BufferSize
    }

    constructor (kbps: nat, bufferSize: nat)
      requires 1 <= kbps <= 8_000_000
      ensures Valid() && WithinBuffer() && Kbps == kbps && BufferSize == bufferSize && Log == []
    {
      Kbps, BufferSize, BufferUtilization, BufferUtilizationTp, Load, Log := kbps, bufferSize, 0, 0, 0, [];
    }

    // The whole nanoseconds that a byte takes: one more would be too many.
    function TimePerByte(): (t: nat)
      requires 1 <= Kbps <= 8_000_000
      ensures t > 0 && t * Kbps <= 8 * MICRO < (t + 1) * Kbps
    {
      WholeBytes(8_000_000, Kbps);
      Difference(1, 8_000_000 / Kbps, Kbps);
      8_000_000 / Kbps
    }

    // Between any two packets sent, within the buffer: no more bits than it holds and the
    // link carries, and less than Kbps millionths of a bit more per byte past the buffer.
    lemma WithinLink(i: nat, j: nat)
      requires Valid() && WithinBuffer() && i <= j < |Log|
      ensures var n, elapsed, short := TotalBytes(Log[i..j + 1]), Log[j].time - Log[i].time, 8 * MICRO - TimePerByte() * Kbps;
              && 0 <= elapsed && 0 <= short < Kbps
              && 8 * n * MICRO <= 8 * BufferSize * MICRO + Carried(elapsed, Kbps) + (n - BufferSize) * short
    {
      hide Run;
      RunLoad(Log, i, j, TimePerByte());
      LinkBound(Log, i, j, BufferSize, TimePerByte(), Kbps);
      Sum(TimePerByte(), 1, Kbps);
    }

    function WhenCanSend(bytes: nat): (time: int)
      requires Valid()
      reads this
    {
      BufferUtilizationTp + (BufferUtilization + bytes - BufferSize) * TimePerByte()
    }

    // A time before the last one is refused.
    method DidSend(tp: int, bytes: nat) returns (ok: bool)
      requires Valid()
      modifies this
      ensures Valid() && (ok <==> tp >= old(BufferUtilizationTp))
      ensures !ok ==> Log == old(Log) && BufferUtilization == old(BufferUtilization) && BufferUtilizationTp == old(BufferUtilizationTp)
      ensures !ok ==> Load == old(Load)
      ensures ok ==> BufferUtilizationTp == tp && Log == old(Log) + [Send(tp, bytes, BufferUtilization)]
      ensures ok ==> Load == DrainedExactly(old(Load), tp - old(BufferUtilizationTp)) + bytes * TimePerByte()
      ensures ok ==> (BufferUtilization <= BufferSize <==> bytes <= BufferSize && tp >= old(WhenCanSend(bytes)))
    {
      ok := tp >= BufferUtilizationTp;
      if ok {
        hide Run, Drained, DrainedExactly;
        ghost var elapsed, t := tp - BufferUtilizationTp, TimePerByte();
        DrainedAbove(BufferUtilization, Load, elapsed, t);
        if bytes <= BufferSize {
          FitsWhen(BufferUtilization, bytes, BufferSize, elapsed, t);
        }
        ghost var level := Drained(BufferUtilization, elapsed, t);
        RunSnoc(Log, Send(tp, bytes, level + bytes), t, BufferUtilization, BufferUtilizationTp);
        Sum(level, bytes, t);
        FastForwardTo(tp);
        BufferUtilization := BufferUtilization + bytes;
        Load := DrainedExactly(Load, elapsed) + bytes * t;
        Log := Log + [Send(tp, bytes, BufferUtilization)];
      }
    }

    method FastForwardTo(tp: int)
      requires tp >= BufferUtilizationTp && 1 <= Kbps <= 8_000_000
      modifies this`BufferUtilization, this`BufferUtilizationTp
      ensures BufferUtilization == Drained(old(BufferUtilization), tp - old(BufferUtilizationTp), TimePerByte())
      ensures BufferUtilizationTp == tp
    {
      var bytesRead := (tp - BufferUtilizationTp) / TimePerByte();
      BufferUtilization := if bytesRead > BufferUtilization then 0 else BufferUtilization - bytesRead;
      BufferUtilizationTp := tp;
    }
  }

  lemma RunSnoc(log: seq<Send>, s: Send, timePerByte: nat, level: nat, time: int)
    requires timePerByte > 0 && Run(log, timePerByte) && time <= s.time
    requires log != [] ==> log[|log| - 1].time == time && log[|log| - 1].level == level
    requires s.level == Drained(level, s.time - time, timePerByte) + s.bytes
    ensures Run(log + [s], timePerByte)
  {
    var more := log + [s];
    forall i | 0 <= i < |more| - 1 ensures Follows(more[i], more[i + 1], timePerByte) {
      if i + 1 < |log| {
        assert more[i] == log[i] && more[i + 1] == log[i + 1];
        assert Follows(log[i], log[i + 1], timePerByte);
      }
    }
  }
}
