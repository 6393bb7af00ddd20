// The wire formats. Bytes are numbers below 256; where the source combines
// disjoint bits with | the sum is written, where it masks low bits a remainder.
module Serializers {
  import opened Columns
  import opened Coefficients

  type Byte8 = n: int | 0 <= n < 256 witness 0

  type Bytes = seq<Byte8>

  // A field read from a buffer and the number of bytes it takes there.
  datatype Field<T> = Field(value: T, bytes: nat) | Malformed

  const PACKET_LENGTH_LIMIT: nat := 0x20000000
  const MAX_LOSS_RANGE_FIELD_BYTES: nat := 7

  function Join(high: nat, low: nat): nat {
    high * 0x100 + low
  }

  // A number and its bytes, the first one carrying flags.
  lemma JoinDigits(n: nat, flags: nat)
    ensures Join(flags + n / 0x100, n % 0x100) == flags * 0x100 + n
    ensures Join(Join(flags + n / 0x10000, n / 0x100 % 0x100), n % 0x100) == flags * 0x10000 + n
    ensures Join(Join(Join(flags + n / 0x1000000, n / 0x10000 % 0x100), n / 0x100 % 0x100), n % 0x100) == flags * 0x1000000 + n
  {
    var m := n / 0x100;
    var k := m / 0x100;
    assert n / 0x10000 == k;
    assert n / 0x1000000 == k / 0x100;
  }

  // Masking removes the flags.
  lemma Unflagged(n: nat)
    ensures n < 0x4000 ==> (0x80 * 0x100 + n) % 0x4000 == n
    ensures n < 0x400000 ==> (0xC0 * 0x10000 + n) % 0x400000 == n
    ensures n < 0x8000 ==> (0x80 * 0x100 + n) % 0x8000 == n
    ensures n < 0x200000 ==> (0xC0 * 0x10000 + n) % 0x200000 == n
    ensures n < 0x20000000 ==> (0xE0 * 0x1000000 + n) % 0x20000000 == n
  {}

  // ---- packet numbers, 1-3 bytes ----

  function SerializeHeaderPacketNum(packetNum: nat): (b: Bytes)
    requires packetNum < COLUMN_PERIOD
    ensures 1 <= |b| <= 3
  {
    if packetNum <= 0x7f then [packetNum]
    else if packetNum <= 0x3fff then [0x80 + packetNum / 0x100, packetNum % 0x100]
    else [0xC0 + packetNum / 0x10000, packetNum / 0x100 % 0x100, packetNum % 0x100]
  }

  function DeserializeHeaderPacketNum(b: Bytes): (f: Field<nat>)
    ensures f.Field? ==> 1 <= f.bytes <= |b| && f.value < COLUMN_PERIOD
  {
    if |b| < 1 then Malformed
    else
      var byteCount := b[0] / 0x40;
      if byteCount <= 1 then Field(b[0], 1)
      else if |b| < byteCount then Malformed
      else if byteCount == 2 then Field(Join(b[0], b[1]) % 0x4000, 2)
      else Field(Join(Join(b[0], b[1]), b[2]) % 0x400000, 3)
  }

  function SerializeFooterPacketNum(packetNum: nat): (b: Bytes)
    requires packetNum < COLUMN_PERIOD
    ensures 1 <= |b| <= 3
  {
    if packetNum <= 0x7f then [packetNum]
    else if packetNum <= 0x3fff then [packetNum % 0x100, 0x80 + packetNum / 0x100]
    else [packetNum % 0x100, packetNum / 0x100 % 0x100, 0xC0 + packetNum / 0x10000]
  }

  function DeserializeFooterPacketNum(b: Bytes): (f: Field<nat>)
    ensures f.Field? ==> 1 <= f.bytes <= |b| && f.value < COLUMN_PERIOD
  {
    var n := |b|;
    if n < 1 then Malformed
    else
      var byteCount := b[n - 1] / 0x40;
      if byteCount <= 1 then Field(b[n - 1], 1)
      else if n < byteCount then Malformed
      else if byteCount == 2 then Field(Join(b[n - 1], b[n - 2]) % 0x4000, 2)
      else Field(Join(Join(b[n - 1], b[n - 2]), b[n - 3]) % 0x400000, 3)
  }

  lemma HeaderPacketNumRoundTrip(packetNum: nat, rest: Bytes)
    requires packetNum < COLUMN_PERIOD
    ensures var b := SerializeHeaderPacketNum(packetNum);
            DeserializeHeaderPacketNum(b + rest) == Field(packetNum, |b|)
  {
    hide Join;
    JoinDigits(packetNum, 0x80);
    JoinDigits(packetNum, 0xC0);
    Unflagged(packetNum);
    var b := SerializeHeaderPacketNum(packetNum);
    assert forall i :: 0 <= i < |b| ==> (b + rest)[i] == b[i];
  }

  lemma FooterPacketNumRoundTrip(before: Bytes, packetNum: nat)
    requires packetNum < COLUMN_PERIOD
    ensures var b := SerializeFooterPacketNum(packetNum);
            DeserializeFooterPacketNum(before + b) == Field(packetNum, |b|)
  {
    hide Join;
    JoinDigits(packetNum, 0x80);
    JoinDigits(packetNum, 0xC0);
    Unflagged(packetNum);
    var b := SerializeFooterPacketNum(packetNum);
    assert forall i :: 0 <= i < |b| ==> (before + b)[|before| + i] == b[i];
  }

  // ---- packet counts, 1-2 bytes ----

  function SerializeFooterPacketCount(count: nat): (b: Bytes)
    requires count <= MAX_PACKETS
    ensures 1 <= |b| <= 2
  {
    if count <= 127 then [count] else [count % 0x100, 0x80 + count / 0x100]
  }

  function DeserializeFooterPacketCount(b: Bytes): (f: Field<nat>)
    ensures f.Field? ==> 1 <= f.bytes <= |b| && f.value < 0x8000
  {
    var n := |b|;
    if n < 1 then Malformed
    else if b[n - 1] < 0x80 then Field(b[n - 1], 1)
    else if n < 2 then Malformed
    else Field(Join(b[n - 1], b[n - 2]) % 0x8000, 2)
  }

  lemma FooterPacketCountRoundTrip(before: Bytes, count: nat)
    requires count <= MAX_PACKETS
    ensures var b := SerializeFooterPacketCount(count);
            DeserializeFooterPacketCount(before + b) == Field(count, |b|)
  {
    hide Join;
    JoinDigits(count, 0x80);
    Unflagged(count);
    var b := SerializeFooterPacketCount(count);
    assert forall i :: 0 <= i < |b| ==> (before + b)[|before| + i] == b[i];
  }

  // ---- packet lengths, 1-4 bytes ----

  function SerializeHeaderPacketLength(length: nat): (b: Bytes)
    requires 0 < length < PACKET_LENGTH_LIMIT
    ensures 1 <= |b| <= 4
  {
    if length <= 0x7f then [length]
    else if length <= 0x3fff then [0x80 + length / 0x100, length % 0x100]
    else if length <= 0x1fffff then [0xC0 + length / 0x10000, length / 0x100 % 0x100, length % 0x100]
    else [0xE0 + length / 0x1000000, length / 0x10000 % 0x100, length / 0x100 % 0x100, length % 0x100]
  }

  function DeserializeHeaderPacketLength(b: Bytes): (f: Field<nat>)
    ensures f.Field? ==> 1 <= f.bytes <= |b| && f.value < PACKET_LENGTH_LIMIT
  {
    if |b| < 1 then Malformed
    else if b[0] / 0x40 <= 1 then Field(b[0], 1)
    else if b[0] / 0x40 == 2 then
      if |b| < 2 then Malformed else Field(Join(b[0], b[1]) % 0x4000, 2)
    else if b[0] / 0x20 == 6 then
      if |b| < 3 then Malformed else Field(Join(Join(b[0], b[1]), b[2]) % 0x200000, 3)
    else
      if |b| < 4 then Malformed
      else Field(Join(Join(Join(b[0], b[1]), b[2]), b[3]) % 0x20000000, 4)
  }

  function SerializeFooterPacketLength(length: nat): (b: Bytes)
    requires 0 < length < PACKET_LENGTH_LIMIT
    ensures 1 <= |b| <= 4
  {
    if length <= 0x7f then [length]
    else if length <= 0x3fff then [length % 0x100, 0x80 + length / 0x100]
    else if length <= 0x1fffff then [length % 0x100, length / 0x100 % 0x100, 0xC0 + length / 0x10000]
    else [length % 0x100, length / 0x100 % 0x100, length / 0x10000 % 0x100, 0xE0 + length / 0x1000000]
  }

  function DeserializeFooterPacketLength(b: Bytes): (f: Field<nat>)
    ensures f.Field? ==> 1 <= f.bytes <= |b| && f.value < PACKET_LENGTH_LIMIT
  {
    var n := |b|;
    if n < 1 then Malformed
    else if b[n - 1] / 0x40 <= 1 then Field(b[n - 1], 1)
    else if b[n - 1] / 0x40 == 2 then
      if n < 2 then Malformed else Field(Join(b[n - 1], b[n - 2]) % 0x4000, 2)
    else if b[n - 1] / 0x20 == 6 then
      if n < 3 then Malformed else Field(Join(Join(b[n - 1], b[n - 2]), b[n - 3]) % 0x200000, 3)
    else
      if n < 4 then Malformed
      else Field(Join(Join(Join(b[n - 1], b[n - 2]), b[n - 3]), b[n - 4]) % 0x20000000, 4)
  }

  lemma HeaderPacketLengthRoundTrip(length: nat, rest: Bytes)
    requires 0 < length < PACKET_LENGTH_LIMIT
    ensures var b := SerializeHeaderPacketLength(length);
            DeserializeHeaderPacketLength(b + rest) == Field(length, |b|)
  {
    hide Join;
    JoinDigits(length, 0x80);
    JoinDigits(length, 0xC0);
    JoinDigits(length, 0xE0);
    Unflagged(length);
    var b := SerializeHeaderPacketLength(length);
    assert forall i :: 0 <= i < |b| ==> (b + rest)[i] == b[i];
  }

  lemma FooterPacketLengthRoundTrip(before: Bytes, length: nat)
    requires 0 < length < PACKET_LENGTH_LIMIT
    ensures var b := SerializeFooterPacketLength(length);
            DeserializeFooterPacketLength(before + b) == Field(length, |b|)
  {
    hide Join;
    JoinDigits(length, 0x80);
    JoinDigits(length, 0xC0);
    JoinDigits(length, 0xE0);
    Unflagged(length);
    var b := SerializeFooterPacketLength(length);
    assert forall i :: 0 <= i < |b| ==> (before + b)[|before| + i] == b[i];
  }

  // ---- recovery metadata, behind the payload ----

  // What the footer can say: a single packet has no row and no light range.
  predicate Encodable(m: Metadata) {
    && m.columnStart < COLUMN_PERIOD && m.row < 256 && 1 <= m.ldpcCount <= m.sumCount <= MAX_PACKETS
    && (m.sumCount == 1 ==> m.row == 0)
  }

  function SerializeFooterRecoveryMetadata(m: Metadata): (b: Bytes)
    requires Encodable(m)
    ensures 2 <= |b| <= 8
  {
    (if m.sumCount > 1 then [m.row] + SerializeFooterPacketCount(m.ldpcCount) else [])
    + SerializeFooterPacketNum(m.columnStart)
    + SerializeFooterPacketCount(m.sumCount - 1)
  }

  function DeserializeFooterRecoveryMetadata(b: Bytes): (f: Field<Metadata>)
    ensures f.Field? ==> 2 <= f.bytes <= |b| && f.value.columnStart < COLUMN_PERIOD && f.value.ldpcCount <= f.value.sumCount
  {
    var count := DeserializeFooterPacketCount(b);
    if count.Malformed? then Malformed
    else
      var sumCount, left := count.value + 1, |b| - count.bytes;
      var num := DeserializeFooterPacketNum(b[..left]);
      if num.Malformed? then Malformed
      else
        var left2 := left - num.bytes;
        if sumCount <= 1 then Field(Metadata(0, num.value, sumCount, 1), |b| - left2)
        else
          var ldpc := DeserializeFooterPacketCount(b[..left2]);
          if ldpc.Malformed? then Malformed
          else
            var left3 := left2 - ldpc.bytes;
            if sumCount < ldpc.value || left3 < 1 then Malformed
            else Field(Metadata(b[left3 - 1], num.value, sumCount, ldpc.value), |b| - (left3 - 1))
  }

  // The decoder reads back the metadata the encoder wrote, whatever the payload.
  lemma RecoveryMetadataRoundTrip(payload: Bytes, m: Metadata)
    requires Encodable(m)
    ensures var b := SerializeFooterRecoveryMetadata(m);
            DeserializeFooterRecoveryMetadata(payload + b) == Field(m, |b|)
  {
    hide SerializeFooterPacketCount, SerializeFooterPacketNum, DeserializeFooterPacketCount, DeserializeFooterPacketNum;
    var light := if m.sumCount > 1 then SerializeFooterPacketCount(m.ldpcCount) else [];
    var front := if m.sumCount > 1 then [m.row] else [];
    var num, count := SerializeFooterPacketNum(m.columnStart), SerializeFooterPacketCount(m.sumCount - 1);
    var b := payload + SerializeFooterRecoveryMetadata(m);
    var b2 := payload + front + light + num;
    var b3 := payload + front + light;
    assert b == b2 + count;
    assert b[..|b2|] == b2 && b2 == b3 + num && b[..|b3|] == b3;
    FooterPacketCountRoundTrip(b2, m.sumCount - 1);
    FooterPacketNumRoundTrip(b3, m.columnStart);
    if m.sumCount > 1 {
      FooterPacketCountRoundTrip(payload + front, m.ldpcCount);
    }
  }

  // ---- loss ranges of an acknowledgement, 1-7 bytes ----

  // relativeStart packets are skipped, lossCountM1 + 1 are lost.
  datatype LossRange = LossRange(relativeStart: nat, lossCountM1: nat)

  predicate RangeEncodable(r: LossRange) {
    r.relativeStart < COLUMN_PERIOD && r.lossCountM1 < COLUMN_PERIOD
  }

  // Seven bits a byte, a set high bit saying that another byte follows; the
  // third byte has all eight.
  function SerializeBits(n: nat): (b: Bytes)
    requires n < COLUMN_PERIOD
    ensures 1 <= |b| <= 3
  {
    if n < 0x80 then [n]
    else if n < 0x4000 then [0x80 + n % 0x80, n / 0x80]
    else [0x80 + n % 0x80, 0x80 + n / 0x80 % 0x80, n / 0x4000]
  }

  function Low7(b: nat): nat {
    b % 0x80
  }

  function Low8(b: nat): nat {
    b % 0x100
  }

  // The number and the bytes it takes.
  function DeserializeBits(b: Bytes): (f: (nat, nat))
    requires |b| >= 3
    ensures 1 <= f.1 <= 3
  {
    if b[0] < 0x80 then (Low7(b[0]), 1)
    else if b[1] < 0x80 then (Low7(b[0]) + 0x80 * Low7(b[1]), 2)
    else (Low7(b[0]) + 0x80 * Low7(b[1]) + 0x4000 * Low8(b[2]), 3)
  }

  lemma SevenBits(n: nat)
    ensures n < 0x80 ==> Low7(n) == n
    ensures n < 0x4000 ==> n / 0x80 < 0x80 && Low7(0x80 + n % 0x80) + 0x80 * Low7(n / 0x80) == n
    ensures n < COLUMN_PERIOD ==>
              Low7(0x80 + n % 0x80) + 0x80 * Low7(0x80 + n / 0x80 % 0x80) + 0x4000 * Low8(n / 0x4000) == n
  {
    if n < COLUMN_PERIOD {
      ThreeParts(n);
    }
  }

  lemma ThreeParts(n: nat)
    ensures n == n % 0x80 + 0x80 * (n / 0x80 % 0x80) + 0x4000 * (n / 0x4000)
  {}

  lemma BitsRoundTrip(n: nat, rest: Bytes)
    requires n < COLUMN_PERIOD && |SerializeBits(n) + rest| >= 3
    ensures DeserializeBits(SerializeBits(n) + rest) == (n, |SerializeBits(n)|)
  {
    hide Low7, Low8;
    var b := SerializeBits(n);
    assert forall i :: 0 <= i < |b| ==> (b + rest)[i] == b[i];
    SevenBits(n);
  }

  // Further bytes of the relative start.
  function StartBytes(relativeStart: nat): (b: Bytes)
    requires relativeStart < COLUMN_PERIOD
    ensures |b| <= 3
  {
    if relativeStart < 0x20 then [] else SerializeBits(relativeStart / 0x20)
  }

  function CountBytes(lossCountM1: nat): (b: Bytes)
    requires lossCountM1 < COLUMN_PERIOD
    ensures |b| <= 3
  {
    if lossCountM1 < 3 then [] else SerializeBits(lossCountM1 - 3)
  }

  function FlagByte(r: LossRange): Byte8 {
    r.relativeStart % 0x20 * 8 + (if r.relativeStart < 0x20 then 0 else 4) + (if r.lossCountM1 <= 2 then r.lossCountM1 else 3)
  }

  function SerializeHeaderNACKLossRange(r: LossRange): (b: Bytes)
    requires RangeEncodable(r)
    ensures 1 <= |b| <= MAX_LOSS_RANGE_FIELD_BYTES
  {
    [FlagByte(r)] + StartBytes(r.relativeStart) + CountBytes(r.lossCountM1)
  }

  // The relative start whose low five bits are given, and the bytes it takes.
  function ReadStart(low: nat, more: bool, b: Bytes): (f: (nat, nat))
    requires |b| >= 3
    ensures f.1 <= 3
  {
    if !more then (low, 0) else (low + 0x20 * DeserializeBits(b).0, DeserializeBits(b).1)
  }

  function ReadCount(flags: nat, b: Bytes): (f: (nat, nat))
    requires |b| >= 3
    ensures f.1 <= 3
  {
    if flags != 3 then (flags, 0) else (3 + DeserializeBits(b).0, DeserializeBits(b).1)
  }

  function DeserializeHeaderNACKLossRange(b: Bytes): (f: Field<LossRange>)
    ensures f.Malformed? <==> |b| < MAX_LOSS_RANGE_FIELD_BYTES
    ensures f.Field? ==> 1 <= f.bytes <= MAX_LOSS_RANGE_FIELD_BYTES
  {
    if |b| < MAX_LOSS_RANGE_FIELD_BYTES then Malformed
    else
      var start := ReadStart(b[0] / 8, b[0] / 4 % 2 == 1, b[1..]);
      var count := ReadCount(b[0] % 4, b[1 + start.1..]);
      Field(LossRange(start.0, count.0), 1 + start.1 + count.1)
  }

  lemma StartRoundTrip(relativeStart: nat, rest: Bytes)
    requires relativeStart < COLUMN_PERIOD && |StartBytes(relativeStart) + rest| >= 3
    ensures ReadStart(relativeStart % 0x20, relativeStart >= 0x20, StartBytes(relativeStart) + rest) == (relativeStart, |StartBytes(relativeStart)|)
  {
    hide SerializeBits, DeserializeBits;
    if relativeStart >= 0x20 {
      BitsRoundTrip(relativeStart / 0x20, rest);
    }
  }

  lemma CountRoundTrip(lossCountM1: nat, rest: Bytes)
    requires lossCountM1 < COLUMN_PERIOD && |CountBytes(lossCountM1) + rest| >= 3
    ensures ReadCount(if lossCountM1 <= 2 then lossCountM1 else 3, CountBytes(lossCountM1) + rest) == (lossCountM1, |CountBytes(lossCountM1)|)
  {
    hide SerializeBits, DeserializeBits;
    if lossCountM1 >= 3 {
      BitsRoundTrip(lossCountM1 - 3, rest);
    }
  }

  lemma FlagsRead(r: LossRange)
    ensures var f := FlagByte(r);
            && f / 8 == r.relativeStart % 0x20 && (f / 4 % 2 == 1 <==> r.relativeStart >= 0x20)
            && f % 4 == if r.lossCountM1 <= 2 then r.lossCountM1 else 3
  {}

  // A loss range is read back whatever follows it, given a few bytes of padding.
  lemma LossRangeRoundTrip(r: LossRange, rest: Bytes)
    requires RangeEncodable(r) && |SerializeHeaderNACKLossRange(r) + rest| >= MAX_LOSS_RANGE_FIELD_BYTES
    ensures var b := SerializeHeaderNACKLossRange(r);
            DeserializeHeaderNACKLossRange(b + rest) == Field(r, |b|)
  {
    hide FlagByte, StartBytes, CountBytes, ReadStart, ReadCount;
    var start, count := StartBytes(r.relativeStart), CountBytes(r.lossCountM1);
    var b := SerializeHeaderNACKLossRange(r) + rest;
    assert b == [FlagByte(r)] + (start + (count + rest));
    assert b[1..] == start + (count + rest);
    assert b[1 + |start|..] == count + rest;
    FlagsRead(r);
    StartRoundTrip(r.relativeStart, count + rest);
    CountRoundTrip(r.lossCountM1, rest);
  }
}
