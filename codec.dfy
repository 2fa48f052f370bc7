/**
 * The version-1 (time-based) UUID layout of RFC 4122 section 4.1.2: how UUIDUtils
 * packs a millisecond timestamp, a sub-millisecond offset, a clock sequence and a
 * node into 16 bytes, and how java.util.UUID reads the timestamp back.
 */
module TimestampCodec {
  import opened Wrappers
  import opened JavaArith

  /** A byte as its unsigned bit pattern (a Java `byte` holds the same eight bits). */
  type Byte = b: int | 0 <= b < 256

  /** The 16 raw bytes of a UUID, most significant first. */
  type Bytes16 = s: seq<Byte> | |s| == 16 witness seq(16, _ => 0)

  /** A Java long as the unsigned reading of its 64-bit pattern. */
  type Bits64 = x: int | 0 <= x < 0x1_0000_0000_0000_0000

  /**
   * A java.util.UUID: its most and least significant longs.
   */
  datatype Uuid = Uuid(msb: Bits64, lsb: Bits64)

  // Byte offsets of the time and clock-sequence fields (RFC 4122 section 4.1.2)
  const CLOCK_LO := 0
  const CLOCK_MID := 4
  const CLOCK_HI := 6
  const CLOCK_SEQUENCE := 8

  /** 100-ns ticks from the UUID epoch 1582-10-15 to the Unix epoch (RFC 4122 section 4.1.4). */
  const CLOCK_OFFSET := 0x01b2_1dd2_1381_4000
  /** 100-ns ticks per millisecond. */
  const CLOCK_MULTIPLIER := 10000

  const TWO_48 := 0x1_0000_0000_0000
  const TWO_56 := 0x100_0000_0000_0000
  const TWO_60 := 0x1000_0000_0000_0000
  const TWO_64 := 0x1_0000_0000_0000_0000

  /** The tick count for a Unix-epoch millisecond plus an offset in 100-ns ticks, before any wrap-around. */
  function Ticks(millis: int, timeOffset: int): int {
    millis * CLOCK_MULTIPLIER + CLOCK_OFFSET + timeOffset
  }

  /** Node bytes of the boundary values. */
  const ZERO_NODE: seq<Byte> := [0, 0, 0, 0, 0, 0]
  const ONES_NODE: seq<Byte> := [0xFF, 0xFF, 0xFF, 0xFF, 0xFF, 0xFF]

  // ---------------------------------------------------------------------------
  // The field layout
  // ---------------------------------------------------------------------------

  /** time_low: the low 32 bits of a 60-bit timestamp. */
  function TimeLow(t: int): int
    requires 0 <= t < TWO_60
  {
    t % TWO_32
  }

  /** time_mid: bits 32-47 of a 60-bit timestamp. */
  function TimeMid(t: int): int
    requires 0 <= t < TWO_60
  {
    (t / TWO_32) % 0x1_0000
  }

  /** time_hi_and_version: bits 48-59 of a 60-bit timestamp under the version nibble 0001. */
  function TimeHiAndVersion(t: int): int
    requires 0 <= t < TWO_60
  {
    0x1000 + t / TWO_48
  }

  /** clock_seq_hi_and_reserved with clock_seq_low: 14 bits of clock sequence under the variant bits 10. */
  function ClockSeqAndVariant(clockSeq: int): int {
    0x8000 + clockSeq % 0x4000
  }

  /**
   * The bytes of a version-1 UUID, field by field and each field big-endian:
   * time_low, time_mid, time_hi_and_version, the clock sequence with the variant,
   * then the 6 node bytes. The timestamp is the low 60 bits of ticks: the fields
   * have no room for more.
   */
  function TimeUuidBytes(ticks: int, clockSeq: int, node: seq<Byte>): (r: Bytes16)
    requires |node| == 6
  {
    var t := ticks % TWO_60;
    var lo, mid, hv, cv := TimeLow(t), TimeMid(t), TimeHiAndVersion(t), ClockSeqAndVariant(clockSeq);
    [ lo / 0x100_0000, (lo / 0x1_0000) % 256, (lo / 0x100) % 256, lo % 256,
      mid / 256, mid % 256,
      hv / 256, hv % 256,
      cv / 256, cv % 256,
      node[0], node[1], node[2], node[3], node[4], node[5] ]
  }

  /** The value of the six node bytes, most significant first. */
  function NodeValue(node: seq<Byte>): (r: int)
    requires |node| == 6
    ensures 0 <= r < TWO_48
  {
    node[0] as int * 0x100_0000_0000 + node[1] as int * 0x1_0000_0000 + node[2] as int * 0x100_0000
      + node[3] as int * 0x1_0000 + node[4] as int * 0x100 + node[5] as int
  }

  /**
   * The version-1 UUID of a tick count, a clock sequence and a node, field by field:
   * time_low, time_mid and time_hi_and_version in the most significant long, the clock
   * sequence under the variant and then the node in the least significant one.
   */
  function TimeUuid(ticks: int, clockSeq: int, node: seq<Byte>): Uuid
    requires |node| == 6
  {
    var t := ticks % TWO_60;
    Uuid(TimeLow(t) * TWO_32 + TimeMid(t) * 0x1_0000 + TimeHiAndVersion(t),
         ClockSeqAndVariant(clockSeq) * TWO_48 + NodeValue(node))
  }

  // ---------------------------------------------------------------------------
  // Reading a UUID, as ConversionUtils and java.util.UUID do
  // ---------------------------------------------------------------------------

  /** Eight bytes of b from position i, big-endian, as an unsigned 64-bit pattern. */
  function Long(b: Bytes16, i: int): (r: Bits64)
    requires i == 0 || i == 8
  {
    b[i] as int * TWO_56 + b[i + 1] as int * TWO_48 + b[i + 2] as int * 0x100_0000_0000
      + b[i + 3] as int * TWO_32 + b[i + 4] as int * 0x100_0000 + b[i + 5] as int * 0x1_0000
      + b[i + 6] as int * 0x100 + b[i + 7] as int
  }

  /** ConversionUtils.uuid(byte[]): the first eight bytes make the most significant long. */
  function FromBytes(b: Bytes16): (u: Uuid)
    ensures u.msb == Long(b, 0) && u.lsb == Long(b, 8)
  {
    Uuid(Long(b, 0), Long(b, 8))
  }

  /** UUID.version(): bits 12-15 of the most significant long. */
  function Version(u: Uuid): (r: int)
    ensures 0 <= r < 16
  {
    (u.msb / 0x1000) % 16
  }

  /** The variant: the two most significant bits of the least significant long. */
  function Variant(u: Uuid): (r: int)
    ensures 0 <= r < 4
  {
    u.lsb / 0x4000_0000_0000_0000
  }

  /** The 14-bit clock sequence under the variant bits. */
  function ClockSequence(u: Uuid): (r: int)
    ensures 0 <= r < 0x4000
  {
    (u.lsb / TWO_48) % 0x4000
  }

  /** The 48-bit node: the low six bytes of the least significant long. */
  function Node(u: Uuid): (r: int)
    ensures 0 <= r < TWO_48
  {
    u.lsb % TWO_48
  }

  /** UUID.timestamp() without its version check: time_hi, time_mid and time_low recombined. */
  function Timestamp(u: Uuid): (r: int)
    ensures 0 <= r < TWO_60
  {
    (u.msb % 0x1000) * TWO_48 + ((u.msb / 0x1_0000) % 0x1_0000) * TWO_32 + u.msb / TWO_32
  }

  /** isTimeBased: false for null, otherwise whether the version nibble is 1. */
  function IsTimeBased(u: Option<Uuid>): (r: bool)
    ensures r ==> u.Some?
  {
    match u
    case None => false
    case Some(id) => Version(id) == 1
  }

  /**
   * getTimestampInMillis: 0 for null; UUID.timestamp() throws for a UUID that is not
   * version 1; otherwise the tick count since the Unix epoch divided by 10000 with
   * Java's long division.
   */
  function TimestampInMillis(u: Option<Uuid>): (r: Result<int, Exception>)
    ensures u.None? ==> r == Success(0)
    ensures r.Failure? <==> u.Some? && !IsTimeBased(u)
    ensures r.Success? && u.Some? ==> Abs(r.value) * CLOCK_MULTIPLIER <= Abs(Timestamp(u.value) - CLOCK_OFFSET)
  {
    match u
    case None => Success(0)
    case Some(id) =>
      if Version(id) != 1 then Failure(UnsupportedOperation)
      else Success(TruncDiv(Timestamp(id) - CLOCK_OFFSET, CLOCK_MULTIPLIER))
  }

  /** getTimestampInMicros: as getTimestampInMillis, but the ticks are divided by 10. */
  function TimestampInMicros(u: Option<Uuid>): (r: Result<int, Exception>)
    ensures u.None? ==> r == Success(0)
    ensures r.Failure? <==> u.Some? && !IsTimeBased(u)
    ensures r.Success? && u.Some? ==> Abs(r.value) * 10 <= Abs(Timestamp(u.value) - CLOCK_OFFSET)
  {
    match u
    case None => Success(0)
    case Some(id) =>
      if Version(id) != 1 then Failure(UnsupportedOperation)
      else Success(TruncDiv(Timestamp(id) - CLOCK_OFFSET, 10))
  }

  // ---------------------------------------------------------------------------
  // Properties of the layout
  // ---------------------------------------------------------------------------

  /**
   * Division by one of the constants the layout and the decoders use: x / k and x % k are the
   * quotient and remainder of any decomposition x == q * k + r with 0 <= r < k.
   */
  lemma DivMod(x: int, k: int, q: int, r: int)
    requires || k == 10 || k == 0x10 || k == 0x40 || k == 0x100 || k == 0x1000 || k == 0x4000
             || k == CLOCK_MULTIPLIER || k == 0x1_0000 || k == 0x100_0000 || k == TWO_32
             || k == TWO_48 || k == TWO_60 || k == 0x4000_0000_0000_0000
    requires x == q * k + r && 0 <= r < k
    ensures x / k == q && x % k == r
  {
    if k == 10 {
      assert x == q * 10 + r;
    } else if k == 0x10 {
      assert x == q * 0x10 + r;
    } else if k == 0x40 {
      assert x == q * 0x40 + r;
    } else if k == 0x100 {
      assert x == q * 0x100 + r;
    } else if k == 0x1000 {
      assert x == q * 0x1000 + r;
    } else if k == 0x4000 {
      assert x == q * 0x4000 + r;
    } else if k == CLOCK_MULTIPLIER {
      assert x == q * CLOCK_MULTIPLIER + r;
    } else if k == 0x1_0000 {
      assert x == q * 0x1_0000 + r;
    } else if k == 0x100_0000 {
      assert x == q * 0x100_0000 + r;
    } else if k == TWO_32 {
      assert x == q * TWO_32 + r;
    } else if k == TWO_48 {
      assert x == q * TWO_48 + r;
    } else if k == TWO_60 {
      assert x == q * TWO_60 + r;
    } else {
      assert x == q * 0x4000_0000_0000_0000 + r;
    }
  }

  /** A 16-bit value is its two big-endian bytes put back together. */
  lemma JoinBytes16(v: int)
    requires 0 <= v < 0x1_0000
    ensures (v / 256) * 256 + v % 256 == v
  {
  }

  /** A 32-bit value is its four big-endian bytes put back together. */
  lemma JoinBytes32(v: int)
    requires 0 <= v < TWO_32
    ensures (v / 0x100_0000) * 0x100_0000 + ((v / 0x1_0000) % 256) * 0x1_0000
          + ((v / 0x100) % 256) * 0x100 + v % 256 == v
  {
    var q1, q2 := v / 0x100, v / 0x1_0000;
    DivMod(v, 0x1_0000, q1 / 0x100, (q1 % 0x100) * 0x100 + v % 0x100);
    DivMod(v, 0x100_0000, q2 / 0x100, (q2 % 0x100) * 0x1_0000 + v % 0x1_0000);
  }

  /** Reading the bytes of the layout back gives the UUID of the fields. */
  lemma BytesRoundTrip(ticks: int, clockSeq: int, node: seq<Byte>)
    requires |node| == 6
    ensures FromBytes(TimeUuidBytes(ticks, clockSeq, node)) == TimeUuid(ticks, clockSeq, node)
  {
    var t := ticks % TWO_60;
    var lo, mid, hv, cv := TimeLow(t), TimeMid(t), TimeHiAndVersion(t), ClockSeqAndVariant(clockSeq);
    JoinBytes32(lo);
    JoinBytes16(mid);
    JoinBytes16(hv);
    JoinBytes16(cv);
    var b := TimeUuidBytes(ticks, clockSeq, node);
    MostSignificantBytes(b, lo, mid, hv);
    assert b[10..] == node;
    LeastSignificantBytes(b, cv, node);
  }

  /** Eight big-endian bytes holding time_low, time_mid and time_hi_and_version make the most significant long. */
  lemma MostSignificantBytes(b: Bytes16, lo: int, mid: int, hv: int)
    requires 0 <= lo < TWO_32 && 0 <= mid < 0x1_0000 && 0 <= hv < 0x1_0000
    requires b[0] == lo / 0x100_0000 && b[1] == (lo / 0x1_0000) % 256 && b[2] == (lo / 0x100) % 256
    requires b[3] == lo % 256 && b[4] == mid / 256 && b[5] == mid % 256 && b[6] == hv / 256 && b[7] == hv % 256
    ensures Long(b, 0) == lo * TWO_32 + mid * 0x1_0000 + hv
  {
    JoinBytes32(lo);
    JoinBytes16(mid);
    JoinBytes16(hv);
  }

  /** Eight big-endian bytes holding the clock sequence with its variant and then the node make the least significant long. */
  lemma LeastSignificantBytes(b: Bytes16, cv: int, node: seq<Byte>)
    requires 0 <= cv < 0x1_0000 && |node| == 6
    requires b[8] == cv / 256 && b[9] == cv % 256 && b[10..] == node
    ensures Long(b, 8) == cv * TWO_48 + NodeValue(node)
  {
    JoinBytes16(cv);
    assert b[10] == node[0] && b[11] == node[1] && b[12] == node[2];
    assert b[13] == node[3] && b[14] == node[4] && b[15] == node[5];
  }

  /** Reading the three time fields back out of a most significant long. */
  lemma SplitMostSignificantBits(lo: int, mid: int, hv: int)
    requires 0 <= lo < TWO_32 && 0 <= mid < 0x1_0000 && 0 <= hv < 0x1_0000
    ensures var msb := lo * TWO_32 + mid * 0x1_0000 + hv;
      msb / TWO_32 == lo && (msb / 0x1_0000) % 0x1_0000 == mid && msb % 0x1000 == hv % 0x1000
      && (msb / 0x1000) % 16 == hv / 0x1000
  {
    var msb := lo * TWO_32 + mid * 0x1_0000 + hv;
    var upper := lo * 0x1_0000 + mid;
    DivMod(msb, TWO_32, lo, mid * 0x1_0000 + hv);
    DivMod(msb, 0x1_0000, upper, hv);
    DivMod(upper, 0x1_0000, lo, mid);
    var v, w := hv / 0x1000, hv % 0x1000;
    DivMod(hv, 0x1000, v, w);
    DivMod(msb, 0x1000, upper * 16 + v, w);
    DivMod(upper * 16 + v, 0x10, upper, v);
  }

  /** A 60-bit value is its high 12 bits, its middle 16 bits and its low 32 bits put back together. */
  lemma RecombineTimestamp(t: int)
    requires 0 <= t < TWO_60
    ensures (TimeHiAndVersion(t) % 0x1000) * TWO_48 + TimeMid(t) * TWO_32 + TimeLow(t) == t
  {
    var q := t / TWO_32;
    DivMod(t, TWO_48, q / 0x1_0000, (q % 0x1_0000) * TWO_32 + t % TWO_32);
    DivMod(0x1000 + t / TWO_48, 0x1000, 1, t / TWO_48);
  }

  /** The recombined timestamp of a packed UUID is the low 60 bits of the packed tick count. */
  lemma PackingRoundTrip(ticks: int, clockSeq: int, node: seq<Byte>)
    requires |node| == 6
    ensures Timestamp(TimeUuid(ticks, clockSeq, node)) == ticks % TWO_60
  {
    var t := ticks % TWO_60;
    var lo, mid, hv := TimeLow(t), TimeMid(t), TimeHiAndVersion(t);
    var msb := TimeUuid(ticks, clockSeq, node).msb;
    assert msb == lo * TWO_32 + mid * 0x1_0000 + hv;
    SplitMostSignificantBits(lo, mid, hv);
    assert Timestamp(TimeUuid(ticks, clockSeq, node)) == (hv % 0x1000) * TWO_48 + mid * TWO_32 + lo;
    RecombineTimestamp(t);
  }

  /**
   * Whatever the tick count, a packed UUID is version 1 with variant 10, its clock
   * sequence is the low 14 bits of clockSeq, and its node is node.
   */
  lemma FixedFields(ticks: int, clockSeq: int, node: seq<Byte>)
    requires |node| == 6
    ensures var u := TimeUuid(ticks, clockSeq, node);
      && IsTimeBased(Some(u)) && Variant(u) == 2
      && ClockSequence(u) == clockSeq % 0x4000 && Node(u) == NodeValue(node)
  {
    var t := ticks % TWO_60;
    SplitMostSignificantBits(TimeLow(t), TimeMid(t), TimeHiAndVersion(t));
    var c, n := clockSeq % 0x4000, NodeValue(node);
    var lsb := TimeUuid(ticks, clockSeq, node).lsb;
    DivMod(lsb, TWO_48, 0x8000 + c, n);
    DivMod(0x8000 + c, 0x4000, 2, c);
    DivMod(lsb, 0x4000_0000_0000_0000, 2, c * TWO_48 + n);
    DivMod(0x1000 + t / TWO_48, 0x1000, 1, t / TWO_48);
  }

  /**
   * The fixed bits of the layout, byte by byte: the high nibble of byte 6 is the
   * version 1, the top two bits of byte 8 are the variant 10, the low 14 bits of bytes
   * 8-9 are the low 14 bits of clockSeq, and bytes 10-15 are the node as given.
   */
  lemma LayoutFixedBits(ticks: int, clockSeq: int, node: seq<Byte>)
    requires |node| == 6
    ensures var b := TimeUuidBytes(ticks, clockSeq, node);
      && b[6] / 0x10 == 1 && b[8] / 0x40 == 2
      && (b[8] as int % 0x40) * 0x100 + b[9] as int == clockSeq % 0x4000
      && b[10..] == node
  {
    var t := ticks % TWO_60;
    var h, c := t / TWO_48, clockSeq % 0x4000;
    DivMod(TimeHiAndVersion(t), 0x100, 0x10 + h / 0x100, h % 0x100);
    DivMod(0x10 + h / 0x100, 0x10, 1, h / 0x100);
    DivMod(ClockSeqAndVariant(clockSeq), 0x100, 0x80 + c / 0x100, c % 0x100);
    DivMod(0x80 + c / 0x100, 0x40, 2, c / 0x100);
    assert TimeUuidBytes(ticks, clockSeq, node)[10..] == node;
  }

  /**
   * For a non-negative millisecond and offset whose tick count fits in 60 bits, the
   * decoded millisecond is the millisecond plus the whole milliseconds in the offset,
   * and the decoded microsecond is millis * 1000 + timeOffset / 10. So an offset below
   * 10000 decodes to the millisecond it was packed with, and a larger one carries over.
   */
  lemma MillisRoundTrip(millis: int, timeOffset: int, clockSeq: int, node: seq<Byte>)
    requires |node| == 6
    requires 0 <= millis && 0 <= timeOffset && Ticks(millis, timeOffset) < TWO_60
    ensures var u := Some(TimeUuid(Ticks(millis, timeOffset), clockSeq, node));
      && TimestampInMillis(u) == Success(millis + timeOffset / CLOCK_MULTIPLIER)
      && TimestampInMicros(u) == Success(millis * 1000 + timeOffset / 10)
  {
    var elapsed := DecodedElapsed(Ticks(millis, timeOffset), clockSeq, node);
    assert elapsed == millis * CLOCK_MULTIPLIER + timeOffset;
    DivideScaled(millis, timeOffset, CLOCK_MULTIPLIER);
    assert millis * CLOCK_MULTIPLIER == (millis * 1000) * 10;
    DivideScaled(millis * 1000, timeOffset, 10);
  }

  /**
   * An offset below 10000 ticks stays within its millisecond: the UUID decodes to that
   * millisecond, and to its microsecond plus a tenth of the offset.
   */
  lemma SameMillisecond(millis: int, timeOffset: int, clockSeq: int, node: seq<Byte>)
    requires |node| == 6
    requires 0 <= millis && 0 <= timeOffset < CLOCK_MULTIPLIER && Ticks(millis, timeOffset) < TWO_60
    ensures var u := Some(TimeUuid(Ticks(millis, timeOffset), clockSeq, node));
      TimestampInMillis(u) == Success(millis) && TimestampInMicros(u) == Success(millis * 1000 + timeOffset / 10)
  {
    DivMod(timeOffset, CLOCK_MULTIPLIER, 0, timeOffset);
    MillisRoundTrip(millis, timeOffset, clockSeq, node);
  }

  /**
   * newTimeUUID(ts) for ts != 0, which packs ts itself: whatever the random int, the
   * 13-bit offset stays within the millisecond, so the UUID decodes to ts.
   */
  lemma RandomOffsetSameMillisecond(ts: int, randomInt: int, clockSeq: int, node: seq<Byte>)
    requires |node| == 6 && 0 <= ts && Ticks(ts, 0x1FFF) < TWO_60
    ensures TimestampInMillis(Some(TimeUuid(Ticks(ts, RandomTimeResolution(randomInt)), clockSeq, node)))
         == Success(ts)
  {
    var offset := RandomTimeResolution(randomInt);
    assert Ticks(ts, offset) <= Ticks(ts, 0x1FFF);
    SameMillisecond(ts, offset, clockSeq, node);
  }

  /** (k * d + r) / d == k + r / d for a non-negative r and the two divisors the decoders use. */
  lemma DivideScaled(k: int, r: int, d: int)
    requires 0 <= r && (d == 10 || d == CLOCK_MULTIPLIER)
    ensures (k * d + r) / d == k + r / d
  {
    if d == 10 {
      DivMod(k * 10 + r, 10, k + r / 10, r % 10);
    } else {
      DivMod(k * CLOCK_MULTIPLIER + r, CLOCK_MULTIPLIER, k + r / CLOCK_MULTIPLIER, r % CLOCK_MULTIPLIER);
    }
  }

  /**
   * Decoding a packed UUID whose tick count fits in 60 bits: it is time-based, and the
   * ticks it reports since the Unix epoch are the packed ticks minus the epoch offset.
   */
  lemma DecodedElapsed(ticks: int, clockSeq: int, node: seq<Byte>) returns (elapsed: int)
    requires |node| == 6 && 0 <= ticks < TWO_60
    ensures elapsed == ticks - CLOCK_OFFSET
    ensures var u := Some(TimeUuid(ticks, clockSeq, node));
      && TimestampInMillis(u) == Success(TruncDiv(elapsed, CLOCK_MULTIPLIER))
      && TimestampInMicros(u) == Success(TruncDiv(elapsed, 10))
  {
    assert ticks % TWO_60 == ticks;
    var u := TimeUuid(ticks, clockSeq, node);
    PackingRoundTrip(ticks, clockSeq, node);
    FixedFields(ticks, clockSeq, node);
    assert Timestamp(u) == ticks && Version(u) == 1;
    elapsed := ticks - CLOCK_OFFSET;
    assert TimestampInMillis(Some(u)) == Success(TruncDiv(elapsed, CLOCK_MULTIPLIER));
  }

  /**
   * Before the Unix epoch Java's division rounds toward zero: a negative millisecond
   * packed with an offset of 1 to 9999 decodes to the next millisecond up.
   */
  lemma NegativeMillisRoundUp(millis: int, timeOffset: int, clockSeq: int, node: seq<Byte>)
    requires |node| == 6
    requires millis < 0 && 0 < timeOffset < CLOCK_MULTIPLIER && 0 <= Ticks(millis, timeOffset)
    ensures TimestampInMillis(Some(TimeUuid(Ticks(millis, timeOffset), clockSeq, node)))
         == Success(millis + 1)
  {
    var elapsed := DecodedElapsed(Ticks(millis, timeOffset), clockSeq, node);
    DivMod(-elapsed, CLOCK_MULTIPLIER, -millis - 1, CLOCK_MULTIPLIER - timeOffset);
    assert TruncDiv(elapsed, CLOCK_MULTIPLIER) == millis + 1;
  }

  /**
   * Every UUID packed for millisecond ts with an offset in [0, 0x1FFF] has a timestamp
   * between those of the minimum and the maximum boundary values for ts, and the two
   * boundaries are exactly 0x1FFF ticks apart.
   */
  lemma WithinBoundaries(ts: int, timeOffset: int, clockSeq: int, node: seq<Byte>)
    requires |node| == 6
    requires 0 <= Ticks(ts, 0) && Ticks(ts, 0x1FFF) < TWO_60 && 0 <= timeOffset <= 0x1FFF
    ensures var lower := Timestamp(TimeUuid(Ticks(ts, 0), 0, ZERO_NODE));
      var upper := Timestamp(TimeUuid(Ticks(ts, 0x1FFF), 0x3FFF, ONES_NODE));
      var t := Timestamp(TimeUuid(Ticks(ts, timeOffset), clockSeq, node));
      lower <= t <= upper && upper == lower + 0x1FFF
  {
    var lo, hi, mid := Ticks(ts, 0), Ticks(ts, 0x1FFF), Ticks(ts, timeOffset);
    assert hi == lo + 0x1FFF && lo <= mid <= hi;
    assert lo % TWO_60 == lo && hi % TWO_60 == hi && mid % TWO_60 == mid;
    PackingRoundTrip(lo, 0, ZERO_NODE);
    PackingRoundTrip(hi, 0x3FFF, ONES_NODE);
    PackingRoundTrip(mid, clockSeq, node);
  }

  /**
   * The minimum boundary of millisecond ts: clock sequence 0 under the variant and node
   * 0 leave 0x8000000000000000 in the least significant long; it is time-based, carries
   * the tick count of ts, and decodes to ts when that count fits in 60 bits.
   */
  lemma MinBoundary(ts: int)
    ensures var u := TimeUuid(Ticks(ts, 0), 0, ZERO_NODE);
      && u.lsb == 0x8000_0000_0000_0000
      && IsTimeBased(Some(u)) && Timestamp(u) == Ticks(ts, 0) % TWO_60
      && (0 <= ts && Ticks(ts, 0) < TWO_60 ==> TimestampInMillis(Some(u)) == Success(ts))
  {
    assert ClockSeqAndVariant(0) == 0x8000 && NodeValue(ZERO_NODE) == 0;
    FixedFields(Ticks(ts, 0), 0, ZERO_NODE);
    PackingRoundTrip(Ticks(ts, 0), 0, ZERO_NODE);
    if 0 <= ts && Ticks(ts, 0) < TWO_60 {
      DivMod(0, CLOCK_MULTIPLIER, 0, 0);
      MillisRoundTrip(ts, 0, 0, ZERO_NODE);
    }
  }

  /**
   * The maximum boundary of millisecond ts: clock sequence 0x3FFF under the variant and
   * node bytes 0xFF leave 0xBFFFFFFFFFFFFFFF in the least significant long; it is
   * time-based, carries the tick count of ts plus 0x1FFF, and decodes to ts when that
   * count fits in 60 bits.
   */
  lemma MaxBoundary(ts: int)
    ensures var u := TimeUuid(Ticks(ts, 0x1FFF), 0x3FFF, ONES_NODE);
      && u.lsb == 0xBFFF_FFFF_FFFF_FFFF
      && IsTimeBased(Some(u)) && Timestamp(u) == Ticks(ts, 0x1FFF) % TWO_60
      && (0 <= ts && Ticks(ts, 0x1FFF) < TWO_60 ==> TimestampInMillis(Some(u)) == Success(ts))
  {
    DivMod(0x3FFF, 0x4000, 0, 0x3FFF);
    assert ClockSeqAndVariant(0x3FFF) == 0xBFFF && NodeValue(ONES_NODE) == 0xFFFF_FFFF_FFFF;
    FixedFields(Ticks(ts, 0x1FFF), 0x3FFF, ONES_NODE);
    PackingRoundTrip(Ticks(ts, 0x1FFF), 0x3FFF, ONES_NODE);
    if 0 <= ts && Ticks(ts, 0x1FFF) < TWO_60 {
      DivMod(0x1FFF, CLOCK_MULTIPLIER, 0, 0x1FFF);
      MillisRoundTrip(ts, 0x1FFF, 0x3FFF, ONES_NODE);
    }
  }

  /**
   * An offset past 0x1FFF but still within the millisecond packs into a UUID that
   * decodes to millisecond ts, yet has a timestamp above the maximum boundary of ts.
   */
  lemma OffsetAboveMaxBoundary(ts: int, timeOffset: int, clockSeq: int, node: seq<Byte>)
    requires |node| == 6
    requires 0 <= ts && 0x1FFF < timeOffset < CLOCK_MULTIPLIER && Ticks(ts, timeOffset) < TWO_60
    ensures var u := TimeUuid(Ticks(ts, timeOffset), clockSeq, node);
      && TimestampInMillis(Some(u)) == Success(ts)
      && Timestamp(u) > Timestamp(TimeUuid(Ticks(ts, 0x1FFF), 0x3FFF, ONES_NODE))
  {
    SameMillisecond(ts, timeOffset, clockSeq, node);
    EarlierTicksEarlierTimestamp(Ticks(ts, 0x1FFF), 0x3FFF, ONES_NODE, Ticks(ts, timeOffset), clockSeq, node);
  }

  /** Packed tick counts below 2^60 keep their order in the UUID timestamps. */
  lemma EarlierTicksEarlierTimestamp(a: int, csA: int, nodeA: seq<Byte>, b: int, csB: int, nodeB: seq<Byte>)
    requires |nodeA| == 6 && |nodeB| == 6 && 0 <= a < b < TWO_60
    ensures Timestamp(TimeUuid(a, csA, nodeA)) < Timestamp(TimeUuid(b, csB, nodeB))
  {
    assert a % TWO_60 == a && b % TWO_60 == b;
    PackingRoundTrip(a, csA, nodeA);
    PackingRoundTrip(b, csB, nodeB);
  }

  /** The last offset of a millisecond: 9999 ticks of 100 ns. */
  const LAST_OFFSET := CLOCK_MULTIPLIER - 1

  /**
   * With the maximum packed at the last offset of the millisecond, every UUID packed for
   * ts with an offset in [0, 9999] lies between the two boundaries, which are exactly
   * 9999 ticks apart.
   */
  lemma WithinMillisecond(ts: int, timeOffset: int, clockSeq: int, node: seq<Byte>)
    requires |node| == 6
    requires 0 <= Ticks(ts, 0) && Ticks(ts, LAST_OFFSET) < TWO_60 && 0 <= timeOffset <= LAST_OFFSET
    ensures var lower := Timestamp(TimeUuid(Ticks(ts, 0), 0, ZERO_NODE));
      var upper := Timestamp(TimeUuid(Ticks(ts, LAST_OFFSET), 0x3FFF, ONES_NODE));
      var t := Timestamp(TimeUuid(Ticks(ts, timeOffset), clockSeq, node));
      lower <= t <= upper && upper == lower + LAST_OFFSET
  {
    var lo, hi, mid := Ticks(ts, 0), Ticks(ts, LAST_OFFSET), Ticks(ts, timeOffset);
    assert hi == lo + LAST_OFFSET && lo <= mid <= hi;
    assert lo % TWO_60 == lo && hi % TWO_60 == hi && mid % TWO_60 == mid;
    PackingRoundTrip(lo, 0, ZERO_NODE);
    PackingRoundTrip(hi, 0x3FFF, ONES_NODE);
    PackingRoundTrip(mid, clockSeq, node);
  }

  /**
   * The maximum packed at the last offset still decodes to ts, and the minimum of the
   * next millisecond is one tick above it: the ranges of consecutive milliseconds meet
   * without a gap.
   */
  lemma MillisecondMaxBoundary(ts: int)
    requires 0 <= ts && Ticks(ts + 1, 0) < TWO_60
    ensures var u := TimeUuid(Ticks(ts, LAST_OFFSET), 0x3FFF, ONES_NODE);
      && IsTimeBased(Some(u)) && TimestampInMillis(Some(u)) == Success(ts)
      && Timestamp(TimeUuid(Ticks(ts + 1, 0), 0, ZERO_NODE)) == Timestamp(u) + 1
  {
    var hi, next := Ticks(ts, LAST_OFFSET), Ticks(ts + 1, 0);
    assert next == hi + 1;
    assert hi % TWO_60 == hi && next % TWO_60 == next;
    FixedFields(hi, 0x3FFF, ONES_NODE);
    SameMillisecond(ts, LAST_OFFSET, 0x3FFF, ONES_NODE);
    PackingRoundTrip(hi, 0x3FFF, ONES_NODE);
    PackingRoundTrip(next, 0, ZERO_NODE);
  }

  // ---------------------------------------------------------------------------
  // Filling a byte buffer in place, and the constructors built on it
  // ---------------------------------------------------------------------------

  /**
   * setTimestamp: converts the millisecond to ticks with Java's wrapping long
   * arithmetic, then writes the clock sequence and variant into bytes 8-9, the
   * three time fields into bytes 0-7 and the version nibble into byte 6.
   */
  method SetTimestamp(timestamp: int, uuidBytes: array<Byte>, clockSeq: int, timeOffset: int)
    requires uuidBytes.Length == 16
    modifies uuidBytes
    ensures uuidBytes[..] == TimeUuidBytes(Ticks(timestamp, timeOffset), clockSeq, old(uuidBytes[10..]))
  {
    // timestamp *= 10000; timestamp += kClockOffset; timestamp += timeOffset: a Java long
    // wraps modulo 2^64 at each step, which leaves the same bit pattern (read unsigned here)
    // as wrapping the exact sum once
    var ts := Ticks(timestamp, timeOffset) % TWO_64;

    // (byte) (clockSeq >> 8) and (byte) clockSeq; >> on an int is floor division
    uuidBytes[CLOCK_SEQUENCE] := (clockSeq / 256) % 256;
    uuidBytes[CLOCK_SEQUENCE + 1] := clockSeq % 256;

    // the variant: &= 0x3F keeps the low 6 bits, then |= 0x80 sets the now clear bit 7
    uuidBytes[CLOCK_SEQUENCE] := uuidBytes[CLOCK_SEQUENCE] % 0x40;
    uuidBytes[CLOCK_SEQUENCE] := uuidBytes[CLOCK_SEQUENCE] + 0x80;

    var clockHi := ts / TWO_32;  // (int) (timestamp >>> 32)
    var clockLo := ts % TWO_32;  // (int) timestamp

    uuidBytes[CLOCK_HI] := (clockHi / 0x100_0000) % 256;
    uuidBytes[CLOCK_HI + 1] := (clockHi / 0x1_0000) % 256;
    uuidBytes[CLOCK_MID] := (clockHi / 0x100) % 256;
    uuidBytes[CLOCK_MID + 1] := clockHi % 256;

    uuidBytes[CLOCK_LO] := (clockLo / 0x100_0000) % 256;
    uuidBytes[CLOCK_LO + 1] := (clockLo / 0x1_0000) % 256;
    uuidBytes[CLOCK_LO + 2] := (clockLo / 0x100) % 256;
    uuidBytes[CLOCK_LO + 3] := clockLo % 256;

    // the version: &= 0x0F keeps the low nibble, then |= 0x10 sets the now clear bit 4
    uuidBytes[CLOCK_HI] := uuidBytes[CLOCK_HI] % 0x10;
    uuidBytes[CLOCK_HI] := uuidBytes[CLOCK_HI] + 0x10;

    assert uuidBytes[10..] == old(uuidBytes[10..]);
    StampedBuffer(uuidBytes[..], Ticks(timestamp, timeOffset), ts, clockSeq);
  }

  /**
   * A buffer holding, in bytes 0-9, what the statements of setTimestamp write for the
   * wrapped tick pattern bits is the version-1 layout of the tick count.
   */
  lemma StampedBuffer(b: seq<Byte>, ticks: int, bits: int, clockSeq: int)
    requires |b| == 16 && bits == ticks % TWO_64
    requires var hi, lo := bits / TWO_32, bits % TWO_32;
      && b[0] == (lo / 0x100_0000) % 256 && b[1] == (lo / 0x1_0000) % 256
      && b[2] == (lo / 0x100) % 256 && b[3] == lo % 256
      && b[4] == (hi / 0x100) % 256 && b[5] == hi % 256
      && b[6] == ((hi / 0x100_0000) % 256) % 0x10 + 0x10 && b[7] == (hi / 0x1_0000) % 256
      && b[8] == ((clockSeq / 256) % 256) % 0x40 + 0x80 && b[9] == clockSeq % 256
    ensures b == TimeUuidBytes(ticks, clockSeq, b[10..])
  {
    ClockSequenceBytes(clockSeq);
    HighTimeBytes(ticks, bits);
    LowTimeBytes(ticks, bits);
    var want := TimeUuidBytes(ticks, clockSeq, b[10..]);
    assert forall i | 0 <= i < 16 :: b[i] == want[i];
  }

  /** The bytes Java writes for the clock sequence and the variant. */
  lemma ClockSequenceBytes(clockSeq: int)
    ensures var cv := ClockSeqAndVariant(clockSeq);
      ((clockSeq / 256) % 256) % 0x40 + 0x80 == cv / 256 && clockSeq % 256 == cv % 256
  {
    var c, q := clockSeq % 0x4000, clockSeq / 0x4000;
    var y := q * 0x40 + c / 0x100;
    DivMod(clockSeq, 0x100, y, c % 0x100);
    DivMod(y, 0x100, q / 4, (q % 4) * 0x40 + c / 0x100);
    DivMod((q % 4) * 0x40 + c / 0x100, 0x40, q % 4, c / 0x100);
    DivMod(0x8000 + c, 0x100, 0x80 + c / 0x100, c % 0x100);
  }

  /**
   * The bytes Java cuts from the upper int of the wrapped tick pattern, once the
   * version nibble is set, are those of time_mid and time_hi_and_version.
   */
  lemma HighTimeBytes(ticks: int, bits: int)
    requires bits == ticks % TWO_64
    ensures var t := ticks % TWO_60;
      var hi, hv, mid := bits / TWO_32, TimeHiAndVersion(t), TimeMid(t);
      && ((hi / 0x100_0000) % 256) % 0x10 + 0x10 == hv / 256
      && (hi / 0x1_0000) % 256 == hv % 256
      && (hi / 0x100) % 256 == mid / 256
      && hi % 256 == mid % 256
  {
    var top4, h12, m16 := UpperWord(ticks, bits);
    UpperWordBytes(top4, h12, m16);
  }

  /**
   * The upper int of the wrapped tick pattern: four bits beyond the 60-bit timestamp,
   * then its top 12 bits, then time_mid.
   */
  lemma UpperWord(ticks: int, bits: int) returns (top4: int, h12: int, m16: int)
    requires bits == ticks % TWO_64
    ensures 0 <= top4 < 16 && 0 <= h12 < 0x1000 && 0 <= m16 < 0x1_0000
    ensures bits / TWO_32 == top4 * 0x1000_0000 + h12 * 0x1_0000 + m16
    ensures TimeMid(ticks % TWO_60) == m16 && TimeHiAndVersion(ticks % TWO_60) == 0x1000 + h12
  {
    var t := ticks % TWO_60;
    WrappedLow60(ticks);
    var lo, hi := bits % TWO_32, bits / TWO_32;
    m16 := hi % 0x1_0000;
    var q := hi / 0x1_0000;
    h12, top4 := q % 0x1000, q / 0x1000;
    assert hi == top4 * 0x1000_0000 + h12 * 0x1_0000 + m16;
    DivMod(bits, TWO_60, top4, h12 * TWO_48 + m16 * TWO_32 + lo);
    DivMod(t, TWO_32, h12 * 0x1_0000 + m16, lo);
    DivMod(h12 * 0x1_0000 + m16, 0x1_0000, h12, m16);
    DivMod(t, TWO_48, h12, m16 * TWO_32 + lo);
  }

  /** The four bytes of an upper int made of top4, h12 and m16, with the version nibble forced to 1. */
  lemma UpperWordBytes(top4: int, h12: int, m16: int)
    requires 0 <= top4 < 16 && 0 <= h12 < 0x1000 && 0 <= m16 < 0x1_0000
    ensures var hi, hv := top4 * 0x1000_0000 + h12 * 0x1_0000 + m16, 0x1000 + h12;
      && ((hi / 0x100_0000) % 256) % 0x10 + 0x10 == hv / 256
      && (hi / 0x1_0000) % 256 == hv % 256
      && (hi / 0x100) % 256 == m16 / 256
      && hi % 256 == m16 % 256
  {
    var hi := top4 * 0x1000_0000 + h12 * 0x1_0000 + m16;
    var b3, b2 := top4 * 16 + h12 / 256, h12 % 256;
    var w := (b3 * 0x100 + b2) * 0x100 + m16 / 0x100;
    DivMod(hi, 0x100_0000, b3, b2 * 0x1_0000 + m16);
    DivMod(b3, 0x100, 0, b3);
    DivMod(b3, 0x10, top4, h12 / 0x100);
    DivMod(0x1000 + h12, 0x100, 0x10 + h12 / 0x100, b2);
    DivMod(hi, 0x1_0000, b3 * 0x100 + b2, m16);
    DivMod(b3 * 0x100 + b2, 0x100, b3, b2);
    DivMod(hi, 0x100, w, m16 % 0x100);
    DivMod(w, 0x100, b3 * 0x100 + b2, m16 / 0x100);
  }

  /** Wrapping to 64 bits keeps the low 60. */
  lemma WrappedLow60(ticks: int)
    ensures (ticks % TWO_64) % TWO_60 == ticks % TWO_60
  {
    var b := ticks % TWO_64;
    DivMod(ticks, TWO_60, (ticks / TWO_64) * 16 + b / TWO_60, b % TWO_60);
  }

  /** The bytes Java cuts from the lower int of the wrapped tick pattern are those of time_low. */
  lemma LowTimeBytes(ticks: int, bits: int)
    requires bits == ticks % TWO_64
    ensures var lo, want := bits % TWO_32, TimeLow(ticks % TWO_60);
      && (lo / 0x100_0000) % 256 == want / 0x100_0000
      && (lo / 0x1_0000) % 256 == (want / 0x1_0000) % 256
      && (lo / 0x100) % 256 == (want / 0x100) % 256
      && lo % 256 == want % 256
  {
    WrappedLow60(ticks);
    var t := ticks % TWO_60;
    DivMod(bits, TWO_32, (bits / TWO_60) * 0x1000_0000 + t / TWO_32, t % TWO_32);
  }

  /** getRandomClockSequence: the low 14 bits of a random int (`& 0x3FFF`). */
  function RandomClockSequence(randomInt: int): (r: int)
    ensures 0 <= r < 0x4000 && (randomInt - r) % 0x4000 == 0
  {
    randomInt % 0x4000
  }

  /** getRandomTimeResolution: the low 13 bits of a random int (`& 0x1FFF`). */
  function RandomTimeResolution(randomInt: int): (r: int)
    ensures 0 <= r < 0x2000 && (randomInt - r) % 0x2000 == 0
  {
    randomInt % 0x2000
  }

  /**
   * The body of newTimeUUID(ts, timeoffset) for ts != 0: a fresh buffer, the random
   * multicast node in bytes 10-15, then setTimestamp with a random clock sequence.
   * The random node and the random int are parameters.
   */
  method BuildTimeUuid(ts: int, timeOffset: int, node: seq<Byte>, randomInt: int) returns (u: Uuid)
    requires |node| == 6
    ensures u == TimeUuid(Ticks(ts, timeOffset), RandomClockSequence(randomInt), node)
  {
    var uuidBytes := new Byte[16](_ => 0);
    uuidBytes[10], uuidBytes[11], uuidBytes[12] := node[0], node[1], node[2];
    uuidBytes[13], uuidBytes[14], uuidBytes[15] := node[3], node[4], node[5];
    assert uuidBytes[10..] == node;
    var clockSeq := RandomClockSequence(randomInt);
    SetTimestamp(ts, uuidBytes, clockSeq, timeOffset);
    u := FromBytes(uuidBytes[..]);
    BytesRoundTrip(Ticks(ts, timeOffset), clockSeq, node);
  }

  /** minTimeUUID: the UUID of millisecond ts with offset 0, clock sequence 0 and node 0. */
  method MinTimeUuid(ts: int) returns (u: Uuid)
    ensures u == TimeUuid(Ticks(ts, 0), 0, ZERO_NODE)
  {
    var uuidBytes := new Byte[16](_ => 0);
    assert uuidBytes[10..] == ZERO_NODE;
    SetTimestamp(ts, uuidBytes, 0, 0);
    u := FromBytes(uuidBytes[..]);
    BytesRoundTrip(Ticks(ts, 0), 0, ZERO_NODE);
  }

  /** The body of maxTimeUUID with the offset as a parameter: node bytes all 0xFF, clock sequence 0x3FFF. */
  method MaxUuidAt(ts: int, timeOffset: int) returns (u: Uuid)
    ensures u == TimeUuid(Ticks(ts, timeOffset), 0x3FFF, ONES_NODE)
  {
    var uuidBytes := new Byte[16](_ => 0);
    uuidBytes[10], uuidBytes[11], uuidBytes[12] := 0xFF, 0xFF, 0xFF;
    uuidBytes[13], uuidBytes[14], uuidBytes[15] := 0xFF, 0xFF, 0xFF;
    assert uuidBytes[10..] == ONES_NODE;
    SetTimestamp(ts, uuidBytes, 0x3FFF, timeOffset);
    u := FromBytes(uuidBytes[..]);
    BytesRoundTrip(Ticks(ts, timeOffset), 0x3FFF, ONES_NODE);
  }

  /** maxTimeUUID: the UUID of millisecond ts with offset 0x1FFF, clock sequence 0x3FFF and node bytes all 0xFF. */
  method MaxTimeUuid(ts: int) returns (u: Uuid)
    ensures u == TimeUuid(Ticks(ts, 0x1FFF), 0x3FFF, ONES_NODE)
  {
    u := MaxUuidAt(ts, 0x1FFF);
  }

  /**
   * The maximum boundary the range of a millisecond needs: packed at the last offset of
   * the millisecond, so that it is above every UUID of ts (WithinMillisecond) and below
   * every UUID of ts + 1 (MillisecondMaxBoundary).
   */
  method MillisecondMaxTimeUuid(ts: int) returns (u: Uuid)
    ensures u == TimeUuid(Ticks(ts, LAST_OFFSET), 0x3FFF, ONES_NODE)
  {
    u := MaxUuidAt(ts, LAST_OFFSET);
  }
}
