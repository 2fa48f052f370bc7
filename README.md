# UUIDUtils: version-1 UUIDs, modelled and proved in Dafny

This project models the core of `org.usergrid.utils.UUIDUtils` (Usergrid). This is the
code that builds RFC 4122 version-1 (time-based) UUIDs and reasons about them:

- **Packing.** `setTimestamp` turns a Unix millisecond and a sub-millisecond offset into
  100-ns ticks since 1582-10-15. It scatters them into the time_low, time_mid and
  time_hi_and_version fields of a 16-byte buffer, and forces the version nibble to 1
  and the variant bits to 10. The constructors `newTimeUUID(ts, off)`,
  `newTimeUUID(ts)`, `minTimeUUID` and `maxTimeUUID` are built on it.
- **Decoding.** `isTimeBased` tests the version nibble. `getTimestampInMillis` and
  `getTimestampInMicros` recombine the time fields and divide with Java's long division,
  which rounds toward zero.
- **The tick allocator** behind `newTimeUUID()`. It works on the last millisecond seen
  and a counter that indexes the `MICROS` table (0, 10, ..., 9990), which gives up to
  1000 offsets per millisecond.
- **Null-aware `min` / `max`** of two UUIDs under a comparator.
- **The structural checks** of `tryGetUUID`, `isUUID`, `startsWithUUID` and both
  `tryExtractUUID` overloads: length 36, and hyphens at positions 8, 13, 18 and 23.

Files:

| file | module | contents |
|---|---|---|
| `wrappers.dfy` | `Wrappers` | `Option` and `Result` |
| `java_arith.dfy` | `JavaArith` | the escaping Java exceptions, 32-bit `int` wrap-around, long division toward zero |
| `codec.dfy` | `TimestampCodec` | the field layout, the in-place `SetTimestamp`, the constructors, the decoders and the round-trip lemmas |
| `clock.dfy` | `ClockArbiter` | the allocator as a function `Step` over the two-field state, the class `UuidClock` holding that state and the `MICROS` array, and lemmas over runs of calls |
| `ordering.dfy` | `UuidOrdering` | `Min` / `Max` with the comparator as a parameter |
| `text.dfy` | `CanonicalText` | the 8-4-4-4-12 shape checks, with `UUID.fromString` as a parameter |

Representation choices:

- **Bytes and longs.** A Java byte is its unsigned bit pattern, 0..255. A UUID is its two
  longs read as unsigned 64-bit patterns. The byte masks of `setTimestamp` are written
  as arithmetic: `&= 0x3F` is `% 0x40`, and `|= 0x80` on the cleared bit is `+ 0x80`.
- **Wrap-around.** Java's wrapping long arithmetic in `setTimestamp` is the exact tick
  count taken modulo 2^64. Only the low 60 bits reach the fields; `WrappedLow60` proves
  that the wrap does not change them. So ticks at or above 2^60 lose their top bits,
  in the model as in the code.
- **Byte offsets.** The four offset constants imported from the UUID library are fixed
  at their RFC 4122 positions (0, 4, 6, 8).

The allocator follows the code, not its comments. The doc comment of `newTimeUUID()`
says that the call may block to keep "now" in step with the UUIDs it hands out
(lines 72-75). It also says that the method runs at most "10k -1" times per millisecond
and that the microseconds within a millisecond are sequential (lines 77-79). The inline
comments at lines 87-88 say that the counter rolls over at 1k, and that the call blocks
and rolls once that is reached. The `MICROS` table has 1000 entries, so 1000 offsets per
millisecond is the bound the code can keep.

As written, the guard before the 1 ms sleep (line 92) tests `> 1000`. After the sleep the
call does not read the clock again, and it does not test the counter against the table
again: the reset at lines 95-98 still compares the reading taken before the sleep. So the 1001st call within one
millisecond reads `MICROS[1000]` and throws `ArrayIndexOutOfBoundsException`, and every
further call within that millisecond throws too. The counter is incremented either way.
`SlotsExhausted` states this. `ThrottledStep` is the step the comments describe;
"## Findings" has both halves. The class `UuidClock` keeps the code as written.

## Model

| member | source | states |
|---|---|---|
| JavaArith.Wrap32 | core/src/main/java/org/usergrid/utils/UUIDUtils.java:365 | Java `int` subtraction: the result is an `int`, congruent to the exact value modulo 2^32, and the exact value itself when that fits |
| JavaArith.TruncDiv | core/src/main/java/org/usergrid/utils/UUIDUtils.java:295 | Java long division by a positive divisor: the remainder has the sign of the dividend and is smaller than the divisor |
| TimestampCodec.SetTimestamp | core/src/main/java/org/usergrid/utils/UUIDUtils.java:123-156 | after the call the buffer is exactly the version-1 layout of the wrapped tick count and clock sequence; bytes 10-15 keep their old contents |
| TimestampCodec.WrappedLow60 | core/src/main/java/org/usergrid/utils/UUIDUtils.java:125-127 | wrapping the tick count to a 64-bit long leaves its low 60 bits unchanged |
| TimestampCodec.LayoutFixedBits | core/src/main/java/org/usergrid/utils/UUIDUtils.java:130-154 | the high nibble of byte 6 is 1; the top two bits of byte 8 are 10; the low 14 bits of bytes 8-9 are clockSeq mod 2^14; bytes 10-15 are the node untouched |
| TimestampCodec.BytesRoundTrip | core/src/main/java/org/usergrid/utils/UUIDUtils.java:185-191 | reading the packed bytes back big-endian gives the UUID whose longs hold those fields |
| TimestampCodec.PackingRoundTrip | core/src/main/java/org/usergrid/utils/UUIDUtils.java:123-154 | recombining time_hi, time_mid and time_low of a packed UUID gives back the packed tick count mod 2^60 |
| TimestampCodec.FixedFields | core/src/main/java/org/usergrid/utils/UUIDUtils.java:130-154 | for every input, a packed UUID is time-based (version 1) and has variant 2; its clock sequence is clockSeq mod 2^14 and its node is the given node bytes |
| TimestampCodec.IsTimeBased | core/src/main/java/org/usergrid/utils/UUIDUtils.java:283-288 | true only for a present UUID; false for null |
| TimestampCodec.TimestampInMillis | core/src/main/java/org/usergrid/utils/UUIDUtils.java:290-297 | 0 for null; throws exactly when the UUID is not version 1; otherwise a quotient no larger in magnitude than the elapsed ticks over 10000 |
| TimestampCodec.TimestampInMicros | core/src/main/java/org/usergrid/utils/UUIDUtils.java:299-306 | 0 for null; throws exactly when the UUID is not version 1; otherwise a quotient no larger in magnitude than the elapsed ticks over 10 |
| TimestampCodec.DecodedElapsed | core/src/main/java/org/usergrid/utils/UUIDUtils.java:290-306 | for a tick count below 2^60, both decoders divide exactly the packed ticks minus the epoch offset, rounding toward zero |
| TimestampCodec.MillisRoundTrip | core/src/main/java/org/usergrid/utils/UUIDUtils.java:290-306 | for millis >= 0 within range, millis packs and decodes to millis + offset / 10000 (so larger offsets carry into later milliseconds) and to the microsecond millis * 1000 + offset / 10 |
| TimestampCodec.SameMillisecond | core/src/main/java/org/usergrid/utils/UUIDUtils.java:172-177 | an offset in [0, 9999] decodes to the millisecond it was packed with, and to its microsecond plus offset / 10 |
| TimestampCodec.NegativeMillisRoundUp | core/src/main/java/org/usergrid/utils/UUIDUtils.java:295 | before the Unix epoch, a negative millisecond packed with an offset of 1-9999 decodes one millisecond later, because Java's division rounds toward zero |
| TimestampCodec.RandomClockSequence | core/src/main/java/org/usergrid/utils/UUIDUtils.java:118-121 | the clock sequence is the low 14 bits of the random int |
| TimestampCodec.RandomTimeResolution | core/src/main/java/org/usergrid/utils/UUIDUtils.java:113-116 | the offset is the low 13 bits of the random int |
| TimestampCodec.RandomOffsetSameMillisecond | core/src/main/java/org/usergrid/utils/UUIDUtils.java:200-202 | for ts != 0, where newTimeUUID(ts) packs ts itself: whatever the random int, the UUID decodes to millisecond ts |
| TimestampCodec.BuildTimeUuid | core/src/main/java/org/usergrid/utils/UUIDUtils.java:185-191 | newTimeUUID(ts, off) for ts != 0: the result is the version-1 UUID of ts's ticks plus off, with a random clock sequence and the given node |
| TimestampCodec.MinTimeUuid | core/src/main/java/org/usergrid/utils/UUIDUtils.java:208-213 | minTimeUUID(ts) is the UUID of the ticks of ts with clock sequence 0 and node 0 |
| TimestampCodec.MaxTimeUuid | core/src/main/java/org/usergrid/utils/UUIDUtils.java:215-226 | maxTimeUUID(ts) is the UUID of the ticks of ts plus 0x1FFF with clock sequence 0x3FFF and node bytes 0xFF |
| TimestampCodec.MinBoundary | core/src/main/java/org/usergrid/utils/UUIDUtils.java:208-213 | the minimum's least significant long is 0x8000000000000000; it is time-based, carries the ticks of ts, and decodes to ts |
| TimestampCodec.MaxBoundary | core/src/main/java/org/usergrid/utils/UUIDUtils.java:215-226 | the maximum's least significant long is 0xBFFFFFFFFFFFFFFF; it is time-based, carries the ticks of ts plus 0x1FFF, and decodes to ts |
| TimestampCodec.WithinBoundaries | core/src/main/java/org/usergrid/utils/UUIDUtils.java:208-226 | every UUID packed for ts with an offset in [0, 0x1FFF] has a timestamp between the minimum's and the maximum's, which are exactly 0x1FFF apart |
| TimestampCodec.OffsetAboveMaxBoundary | core/src/main/java/org/usergrid/utils/UUIDUtils.java:215-226 | an offset in [0x2000, 9999] packs into a UUID that decodes to millisecond ts but lies above maxTimeUUID(ts) |
| TimestampCodec.MillisecondMaxTimeUuid | core/src/main/java/org/usergrid/utils/UUIDUtils.java:215-226 | the corrected maximum: maxTimeUUID's bytes with the offset 9999, the last of the millisecond |
| TimestampCodec.WithinMillisecond | core/src/main/java/org/usergrid/utils/UUIDUtils.java:208-226 | with the corrected maximum, every UUID packed for ts with an offset in [0, 9999] lies between the two boundaries, which are exactly 9999 apart |
| TimestampCodec.MillisecondMaxBoundary | core/src/main/java/org/usergrid/utils/UUIDUtils.java:215-226 | the corrected maximum is time-based and decodes to ts, and the minimum of ts + 1 is exactly one tick above it |
| ClockArbiter.Step | core/src/main/java/org/usergrid/utils/UUIDUtils.java:89-104 | a later reading resets the counter, and the call then yields offset 0 with the counter at 1; otherwise the counter steps by one (as a Java int) and the call yields 10 * counter while the counter is in [0, 999], throws otherwise; a yielded offset is a multiple of 10 in [0, 9990] |
| ClockArbiter.RepeatedReading | core/src/main/java/org/usergrid/utils/UUIDUtils.java:95-104 | with the reading unchanged, successive calls yield 10k, 10(k+1), ... up to 9990 and throw from then on |
| ClockArbiter.NewMillisecond | core/src/main/java/org/usergrid/utils/UUIDUtils.java:95-104 | a new millisecond, read repeatedly, yields 0, 10, 20, ... and then throws |
| ClockArbiter.SlotsExhausted | core/src/main/java/org/usergrid/utils/UUIDUtils.java:92-104 | the first 1000 calls within a fresh millisecond succeed with offsets 10i, and the 1001st throws ArrayIndexOutOfBoundsException |
| ClockArbiter.ShortRunNoWrap | core/src/main/java/org/usergrid/utils/UUIDUtils.java:104 | a run shorter than the room left between the counter and the largest int never wraps the counter |
| ClockArbiter.AdvancingNoWrap | core/src/main/java/org/usergrid/utils/UUIDUtils.java:95-104 | a run of strictly increasing readings never wraps the counter, whatever its length and starting counter, because every call resets it |
| ClockArbiter.LaterTicks | core/src/main/java/org/usergrid/utils/UUIDUtils.java:95-104 | after issuing tick (m, o), every tick issued for non-decreasing readings no earlier than m comes strictly after (m, o), as long as no call of the run wraps the counter |
| ClockArbiter.RunIncreasing | core/src/main/java/org/usergrid/utils/UUIDUtils.java:86-105 | with readings that never go backwards, the successful ticks of a run strictly increase (millisecond, then offset) from any starting state, as long as no call of the run wraps the counter |
| ClockArbiter.ThrottledStep | core/src/main/java/org/usergrid/utils/UUIDUtils.java:87-104 | the corrected step: a later reading resets the counter; once the 1000 offsets of the millisecond are used, the call moves to the later reading the wait ends with and yields offset 0 there; otherwise 10 * counter; it throws only for a negative counter, and the last millisecond seen never goes back |
| ClockArbiter.ThrottledAgreesWithStep | core/src/main/java/org/usergrid/utils/UUIDUtils.java:92-104 | while the millisecond still has offsets left, the corrected step is the step as written |
| ClockArbiter.ThrottledNeverThrows | core/src/main/java/org/usergrid/utils/UUIDUtils.java:70-88 | from a counter within the table, for readings that never fall below the last millisecond seen, no call of a corrected run throws |
| ClockArbiter.CountWithinRoom | core/src/main/java/org/usergrid/utils/UUIDUtils.java:77-88 | for readings that never fall below the last millisecond seen, a corrected run hands out no more ticks in a millisecond than the state has offsets left for it |
| ClockArbiter.AtMostSlotsPerMillisecond | core/src/main/java/org/usergrid/utils/UUIDUtils.java:77-88 | for a counter within the table and readings that never fall below the last millisecond seen, at most 1000 ticks of a corrected run share one millisecond |
| ClockArbiter.ThrottledLaterTicks | core/src/main/java/org/usergrid/utils/UUIDUtils.java:77-79 | after tick (m, o), for readings that never fall below the last millisecond seen, every later tick of a corrected run comes strictly after (m, o) |
| ClockArbiter.ThrottledIncreasing | core/src/main/java/org/usergrid/utils/UUIDUtils.java:77-79 | for readings that never fall below the last millisecond seen, the ticks of a corrected run strictly increase (millisecond, then offset), for runs of any length |
| ClockArbiter.IssuedTickDecodes | core/src/main/java/org/usergrid/utils/UUIDUtils.java:104 | a tick issued for a reading now >= 0 packs into a UUID that decodes to millisecond now, and to microsecond now * 1000 + offset / 10 |
| ClockArbiter.BeforeMeansEarlierTimestamp | core/src/main/java/org/usergrid/utils/UUIDUtils.java:104 | a tick issued before another one packs into a strictly smaller UUID timestamp |
| ClockArbiter.AllocatorAboveMaxBoundary | core/src/main/java/org/usergrid/utils/UUIDUtils.java:104 | with 820 offsets of a millisecond used, the next call yields offset 8200, whose UUID decodes to that millisecond but lies above its maxTimeUUID |
| ClockArbiter.IssuedTickWithinMillisecond | core/src/main/java/org/usergrid/utils/UUIDUtils.java:208-226 | every tick the allocator hands out packs into a UUID between minTimeUUID of its millisecond and the corrected maximum |
| ClockArbiter.UuidClock.constructor | core/src/main/java/org/usergrid/utils/UUIDUtils.java:47-52 | MICROS[x] == 10 * x for x in 0..999; the clock is read once and the counter starts at 0 |
| ClockArbiter.UuidClock.NextTick | core/src/main/java/org/usergrid/utils/UUIDUtils.java:89-104 | the new fields and the returned tick are exactly one Step of the old fields, and the MICROS table is preserved |
| ClockArbiter.UuidClock.NewTimeUuid | core/src/main/java/org/usergrid/utils/UUIDUtils.java:86-105 | advances the state by one Step; the result is the exception of the tick, or its UUID packed with a random clock sequence and node |
| ClockArbiter.UuidClock.NewTimeUuidWithOffset | core/src/main/java/org/usergrid/utils/UUIDUtils.java:180-192 | ts == 0 goes through the allocator and ignores the offset; any other ts leaves the state unchanged and packs ts with the given offset |
| ClockArbiter.UuidClock.NewTimeUuidAt | core/src/main/java/org/usergrid/utils/UUIDUtils.java:200-202 | as newTimeUUID(ts, off), with off the low 13 bits of a random int |
| UuidOrdering.Min | core/src/main/java/org/usergrid/utils/UUIDUtils.java:234-250 | a null argument yields the other one; otherwise first when compare(first, second) < 0, else second |
| UuidOrdering.Max | core/src/main/java/org/usergrid/utils/UUIDUtils.java:260-276 | a null argument yields the other one; otherwise second when compare(first, second) < 0, else first |
| UuidOrdering.MinMaxPartition | core/src/main/java/org/usergrid/utils/UUIDUtils.java:234-276 | with both arguments present, min and max together return the two arguments, whatever the comparator says |
| UuidOrdering.MinIsLowerBound | core/src/main/java/org/usergrid/utils/UUIDUtils.java:234-250 | for an antisymmetric comparator, min compares at or below both arguments |
| UuidOrdering.MaxIsUpperBound | core/src/main/java/org/usergrid/utils/UUIDUtils.java:260-276 | for an antisymmetric comparator, max compares at or above both arguments |
| UuidOrdering.SwapArguments | core/src/main/java/org/usergrid/utils/UUIDUtils.java:234-276 | for an antisymmetric comparator, swapping two arguments that do not compare equal changes neither min nor max |
| CanonicalText.TryGetUuid | core/src/main/java/org/usergrid/utils/UUIDUtils.java:308-335 | a result is only ever what fromString makes of the string itself; null for null and for any length other than 36 |
| CanonicalText.TryGetUuidShape | core/src/main/java/org/usergrid/utils/UUIDUtils.java:308-328 | the guards accept a string if and only if it is five groups of 8, 4, 4, 4 and 12 characters joined by hyphens |
| CanonicalText.IsUuid | core/src/main/java/org/usergrid/utils/UUIDUtils.java:337-339 | true exactly for a string of the canonical shape that fromString accepts |
| CanonicalText.StartsWithUuid | core/src/main/java/org/usergrid/utils/UUIDUtils.java:341-349 | true exactly when the string has at least 36 characters and its first 36 are a canonical UUID that fromString accepts |
| CanonicalText.TryExtractUuid | core/src/main/java/org/usergrid/utils/UUIDUtils.java:351-359 | whatever fromString makes of the first 36 characters when they have the canonical shape; null otherwise |
| CanonicalText.TryExtractUuidAt | core/src/main/java/org/usergrid/utils/UUIDUtils.java:361-369 | throws exactly for a negative offset whose wrapped int length check passes; null for null and whenever that check fails, whatever the offset; for offset >= 0, the check on the 36-character window at offset, or null when fewer than 36 characters remain |
| CanonicalText.PrefixDecides | core/src/main/java/org/usergrid/utils/UUIDUtils.java:341-359 | whatever follows the first 36 characters does not change tryExtractUUID or startsWithUUID |
| CanonicalText.ExtractAtZero | core/src/main/java/org/usergrid/utils/UUIDUtils.java:351-369 | tryExtractUUID(s, 0) is tryExtractUUID(s) |
| CanonicalText.ExtractAtWindow | core/src/main/java/org/usergrid/utils/UUIDUtils.java:361-369 | after a prefix of length offset, only the next 36 characters decide tryExtractUUID(s, offset) |
| CanonicalText.MinTimeTextAccepted | core/src/main/java/org/usergrid/utils/UUIDUtils.java:56 | the text of MIN_TIME_UUID has the canonical shape and passes the guards |
| CanonicalText.MalformedTextRejected | core/src/main/java/org/usergrid/utils/UUIDUtils.java:308-328 | 36 characters with any one hyphen out of place are rejected, and so are 35 or 37 characters, whatever fromString would say |

## Left out

- Locking and atomicity: the `ReentrantLock`, the `AtomicInteger`, and the fact that
  `getAndIncrement` runs after the unlock (lines 54, 68, 89-104). The allocator is
  modelled as a sequential state machine.
- The 1 ms sleep and the swallowed, printed exception (lines 92-100): timing and I/O.
  A sleep that runs to its end changes no state. An interrupted sleep is not modelled:
  it jumps to the catch at line 99 and skips the reset at lines 95-98. A call with a new
  reading then goes on with the old counter, above 1000, and throws. The model always
  takes the reset.
- `System.currentTimeMillis()`, the two `Random` sources and
  `EthernetAddress.constructMulticastAddress()` (lines 90, 110-121, 187-188). Each is a
  parameter: the clock reading `now`, the raw random ints, and six arbitrary node bytes.
  The model does not require the multicast bit of the node.
- The `generator` field (line 60): it reads a network interface and nothing uses it.
- `compare`, `sort` and `sortReversed` (lines 389-406): thin wrappers over
  `UUIDComparator` and `Collections.sort`, which are not part of this model. `compare`
  is a parameter of `Min` and `Max`.
- `toBase64` / `fromBase64` (lines 371-387): wrappers over commons-codec, not part of
  this model.
- `UUID.fromString` (line 331): a parameter that yields None where the JDK call throws.
  Only the checks before it are modelled.
- `ConversionUtils.uuid` (line 191) is not part of this model. `FromBytes` assumes the
  big-endian reading of the 16 bytes into the two longs.
- `getNextFakeMicros` (lines 204-206): an unused stub.
- The constants `MIN_TIME_UUID`, `MAX_TIME_UUID` and `zeroUUID` (lines 56-64): they are
  built by `UUID.fromString` and `new UUID`. Only the canonical shape of the minimum's
  text is covered (`MinTimeTextAccepted`).
- UuidClock.NewTimeUuid: requires a reading other than 0. For a reading of 0 the code
  calls `newTimeUUID(0, offset)`, which re-enters `newTimeUUID()`. That recursion is not
  modelled.
- ClockArbiter.RepeatedReading: assumes the counter does not wrap past 2^31 - 1 within
  the run. `Step` itself models the wrap.
- ClockArbiter.LaterTicks: requires `NoWrap`: every call of the run either resets the
  counter on a new millisecond or finds it in [0, 2^31 - 2], so no call wraps it. This
  bounds the calls per millisecond, not the whole run. `AdvancingNoWrap` shows that runs
  of any length with a reset on every call meet it.
  `ShortRunNoWrap` shows that runs shorter than 2^31 - 1 - counter calls meet it.
- ClockArbiter.RunIncreasing: requires `NoWrap`, as `LaterTicks` does.
- CanonicalText.TryExtractUuidAt: a Dafny string is a sequence of Unicode scalar
  values, and Java's `length()`, `charAt` and `substring` count UTF-16 code units. So
  lengths and positions agree with Java's only for text without supplementary
  characters (those outside the Basic Multilingual Plane). Lone surrogates cannot be
  written at all. The same holds for `TryGetUuid`, `IsUuid`, `StartsWithUuid` and
  `TryExtractUuid`.
- ClockArbiter.ThrottledStep: the wait is modelled only by the reading it ends with, the
  parameter `later`, which must be past the last millisecond seen.
  How long the call blocks and how often it re-reads the clock are not modelled.
- TimestampCodec.WithinBoundaries: covers only offsets in [0, 0x1FFF], the range of the
  random offset of `newTimeUUID(ts)`. The allocator hands out offsets past 0x1FFF from
  the 821st call of a millisecond on, and those UUIDs lie above `maxTimeUUID`
  (`OffsetAboveMaxBoundary`, "## Findings").
- TimestampCodec.MillisRoundTrip: stated for non-negative milliseconds whose tick count
  fits in 60 bits. Before the epoch, `NegativeMillisRoundUp` covers the rounding
  instead. Above 2^60 ticks, the top bits are lost, as `PackingRoundTrip` shows.
- TimestampCodec.SameMillisecond: stated for the same range as `MillisRoundTrip`.
- ClockArbiter.IssuedTickDecodes: stated for the same range as `MillisRoundTrip`.

## Findings

| source | as written | input that shows it | evidently intended | confidence | as-written member | corrected member |
|---|---|---|---|---|---|---|
| core/src/main/java/org/usergrid/utils/UUIDUtils.java:92-104 | the guard before the sleep tests `currentMicrosPoint.get() > 1000`. After the sleep, the call goes on with the reading taken before it and the counter it had | 1001 calls of `newTimeUUID()` that all read one millisecond later than any seen before: the 1001st reads `MICROS[1000]` and throws `ArrayIndexOutOfBoundsException` | once the 1000 offsets of a millisecond are used, block until the clock reads a later millisecond and start again at offset 0 there (lines 72-79, 87-88). Then no call throws, at most 1000 ticks share a millisecond, and ticks strictly increase | high, not executed | ClockArbiter.SlotsExhausted | ClockArbiter.ThrottledStep |
| core/src/main/java/org/usergrid/utils/UUIDUtils.java:215-226 | `maxTimeUUID(ts)` packs the offset 0x1FFF = 8191. `newTimeUUID()` hands out offsets up to 9990 (lines 49-50, 104), and the doc comment of `newTimeUUID(ts, timeoffset)` allows offsets up to 10000 (lines 175-177) | the 821st call of `newTimeUUID()` within one millisecond m yields offset 8200. That UUID decodes to m, yet its timestamp is above that of `maxTimeUUID(m)`, so a scan from `minTimeUUID(m)` to `maxTimeUUID(m)` misses it | the maximum of millisecond ts packed at the last offset, 9999, so that the range of ts covers every UUID that decodes to ts and meets the range of ts + 1. The value 0x1FFF matches the mask of `getRandomTimeResolution` (line 115), so the bound may have been meant for `newTimeUUID(ts)` only | medium, not executed | ClockArbiter.AllocatorAboveMaxBoundary | TimestampCodec.MillisecondMaxTimeUuid |
