/**
 * The allocator behind newTimeUUID(): one millisecond reading per call, and a
 * counter that hands out the sub-millisecond offsets 0, 10, 20, ... 9990 (in
 * 100-ns ticks) within one millisecond, starting again at 0 when the reading
 * moves past the last millisecond seen.
 */
module ClockArbiter {
  import opened Wrappers
  import opened JavaArith
  import opened TimestampCodec

  /** Length of the MICROS table: offsets available per millisecond. */
  const SLOTS := 1000

  /** timestampMillisNow and the value of the currentMicrosPoint counter. */
  datatype ClockState = ClockState(millisNow: int, counter: int)

  /** What one call hands to newTimeUUID(ts, timeoffset): the reading and the offset. */
  datatype Tick = Tick(millis: int, offset: int)

  /** The state after a call, and the tick it produced or the exception it threw. */
  datatype Outcome = Outcome(next: ClockState, tick: Result<Tick, Exception>)

  /** The later of two millisecond readings. */
  function LatestMillis(a: int, b: int): int {
    if a >= b then a else b
  }

  /**
   * One call of newTimeUUID() with wall-clock reading now: a reading past the last
   * millisecond seen resets the counter to 0; then getAndIncrement() takes the counter
   * (wrapping as a Java int) and MICROS[] of it is the offset, or throws when the
   * counter is outside the table. The increment happens either way.
   */
  function Step(s: ClockState, now: int): (o: Outcome)
    ensures o.next.millisNow == LatestMillis(now, s.millisNow)
    ensures o.tick.Success? <==> now > s.millisNow || 0 <= s.counter < SLOTS
    ensures now > s.millisNow ==> o == Outcome(ClockState(now, 1), Success(Tick(now, 0)))
    ensures now <= s.millisNow ==> o.next.counter == Wrap32(s.counter + 1)
    ensures now <= s.millisNow && o.tick.Success? ==> o.tick.value == Tick(now, 10 * s.counter)
    ensures o.tick.Success? ==>
      o.tick.value.millis == now && 0 <= o.tick.value.offset <= 10 * (SLOTS - 1) && o.tick.value.offset % 10 == 0
  {
    var base := if now > s.millisNow then ClockState(now, 0) else s;
    var c := base.counter;
    var next := ClockState(base.millisNow, Wrap32(c + 1));
    if 0 <= c < SLOTS then Outcome(next, Success(Tick(now, 10 * c)))
    else Outcome(next, Failure(ArrayIndexOutOfBounds))
  }

  /** The results of consecutive calls, one per wall-clock reading. */
  function Run(s: ClockState, readings: seq<int>): (r: seq<Result<Tick, Exception>>)
    ensures |r| == |readings|
    decreases |readings|
  {
    if readings == [] then []
    else
      var o := Step(s, readings[0]);
      [o.tick] + Run(o.next, readings[1..])
  }

  /** Tick a is issued before tick b: an earlier millisecond, or the same one with a smaller offset. */
  predicate Before(a: Tick, b: Tick) {
    a.millis < b.millis || (a.millis == b.millis && a.offset < b.offset)
  }

  /** Every successful tick of r is before every later successful one. */
  predicate Increasing(r: seq<Result<Tick, Exception>>) {
    forall i, j :: 0 <= i < j < |r| && r[i].Success? && r[j].Success? ==> Before(r[i].value, r[j].value)
  }

  predicate Sorted(readings: seq<int>) {
    forall i, j :: 0 <= i < j < |readings| ==> readings[i] <= readings[j]
  }

  /**
   * Every call of the run either resets the counter on a new millisecond or finds it a
   * non-negative int below the largest one, so getAndIncrement() never wraps. This
   * bounds the calls per millisecond, not the run.
   */
  predicate NoWrap(s: ClockState, readings: seq<int>)
    decreases |readings|
  {
    readings == [] ||
      ((readings[0] > s.millisNow || 0 <= s.counter < TWO_31 - 1) && NoWrap(Step(s, readings[0]).next, readings[1..]))
  }

  /** A run shorter than the room left above the counter cannot wrap it. */
  lemma {:induction false} ShortRunNoWrap(s: ClockState, readings: seq<int>)
    requires 0 <= s.counter && s.counter + |readings| < TWO_31 - 1
    ensures NoWrap(s, readings)
    decreases |readings|
  {
    if readings != [] {
      var next := Step(s, readings[0]).next;
      assert 0 <= next.counter <= s.counter + 1;
      ShortRunNoWrap(next, readings[1..]);
    }
  }

  /** Each reading past the one before: every call resets the counter, so a run of any length never wraps it. */
  lemma {:induction false} AdvancingNoWrap(s: ClockState, readings: seq<int>)
    requires |readings| > 0 ==> s.millisNow < readings[0]
    requires forall i, j :: 0 <= i < j < |readings| ==> readings[i] < readings[j]
    ensures NoWrap(s, readings)
    decreases |readings|
  {
    if readings != [] {
      var next := Step(s, readings[0]).next;
      assert next == ClockState(readings[0], 1);
      var rest := readings[1..];
      if rest != [] {
        assert rest[0] == readings[1];
      }
      AdvancingNoWrap(next, rest);
    }
  }

  /** The expected result of the i-th call when the counter starts at k and the reading stays at now. */
  function Slot(now: int, k: int, i: int): Result<Tick, Exception> {
    if k + i < SLOTS then Success(Tick(now, 10 * (k + i))) else Failure(ArrayIndexOutOfBounds)
  }

  /** The expected results with the counter at k are the first one, then those with the counter at k + 1. */
  lemma SlotsShift(now: int, k: int, n: nat)
    requires 0 < n
    ensures seq(n, i => Slot(now, k, i)) == [Slot(now, k, 0)] + seq(n - 1, i => Slot(now, k + 1, i))
  {
    var want := seq(n, i => Slot(now, k, i));
    forall i | 1 <= i < n
      ensures want[i] == Slot(now, k + 1, i - 1)
    {
      assert k + i == (k + 1) + (i - 1);
    }
  }

  /** n readings of now are the reading now followed by n - 1 of them. */
  lemma ConstantReadings(now: int, n: nat)
    requires 0 < n
    ensures seq(n, _ => now) == [now] + seq(n - 1, _ => now)
  {
  }

  /**
   * While the reading stays at the last millisecond seen, the calls hand out the
   * offsets 10k, 10(k+1), ... up to 9990 and throw from then on, as long as the
   * counter does not wrap.
   */
  lemma {:induction false} RepeatedReading(now: int, k: int, n: nat)
    requires 0 <= k && k + n < TWO_31 - 1
    ensures Run(ClockState(now, k), seq(n, _ => now)) == seq(n, i => Slot(now, k, i))
    decreases n
  {
    if n > 0 {
      var o := Step(ClockState(now, k), now);
      assert o.next == ClockState(now, k + 1) && o.tick == Slot(now, k, 0);
      ConstantReadings(now, n);
      RepeatedReading(now, k + 1, n - 1);
      SlotsShift(now, k, n);
    }
  }

  /**
   * A reading past the last millisecond seen, repeated n times, hands out the offsets
   * 0, 10, 20, ...: exactly SLOTS calls per millisecond succeed and the next one
   * throws ArrayIndexOutOfBounds.
   */
  lemma NewMillisecond(s: ClockState, now: int, n: nat)
    requires now > s.millisNow && 0 < n < TWO_31 - 1
    ensures Run(s, seq(n, _ => now)) == seq(n, i => Slot(now, 0, i))
  {
    ConstantReadings(now, n);
    RepeatedReading(now, 1, n - 1);
    SlotsShift(now, 0, n);
  }

  /** The SLOTS + 1-th call within one fresh millisecond throws. */
  lemma SlotsExhausted(s: ClockState, now: int)
    requires now > s.millisNow
    ensures var r := Run(s, seq(SLOTS + 1, _ => now));
      (forall i :: 0 <= i < SLOTS ==> r[i] == Success(Tick(now, 10 * i)))
      && r[SLOTS] == Failure(ArrayIndexOutOfBounds)
  {
    NewMillisecond(s, now, SLOTS + 1);
  }

  /**
   * The step newTimeUUID() evidently intends: once the SLOTS offsets of the last
   * millisecond seen are used, block until the clock reads a later millisecond and
   * start again at offset 0 there. later is the reading the wait ends with; the tick
   * carries the reading the call went on with.
   */
  function ThrottledStep(s: ClockState, now: int, later: int): (o: Outcome)
    requires later > s.millisNow
    ensures o.tick.Success? <==> now > s.millisNow || 0 <= s.counter
    ensures now > s.millisNow ==> o == Outcome(ClockState(now, 1), Success(Tick(now, 0)))
    ensures now <= s.millisNow && s.counter >= SLOTS ==> o == Outcome(ClockState(later, 1), Success(Tick(later, 0)))
    ensures now <= s.millisNow && 0 <= s.counter < SLOTS ==>
      o == Outcome(ClockState(s.millisNow, s.counter + 1), Success(Tick(now, 10 * s.counter)))
    ensures o.next.millisNow >= s.millisNow
    ensures o.tick.Success? ==> 0 <= o.tick.value.offset <= 10 * (SLOTS - 1) && o.tick.value.offset % 10 == 0
  {
    var base := if now > s.millisNow then ClockState(now, 0) else s;
    var waited := base.counter >= SLOTS;
    var millis := if waited then later else now;
    var ready := if waited then ClockState(later, 0) else base;
    var c := ready.counter;
    var next := ClockState(ready.millisNow, Wrap32(c + 1));
    if 0 <= c < SLOTS then Outcome(next, Success(Tick(millis, 10 * c)))
    else Outcome(next, Failure(ArrayIndexOutOfBounds))
  }

  /** Until the offsets of the millisecond run out, the corrected step is the step as written. */
  lemma ThrottledAgreesWithStep(s: ClockState, now: int, later: int)
    requires later > s.millisNow && (now > s.millisNow || 0 <= s.counter < SLOTS)
    ensures ThrottledStep(s, now, later) == Step(s, now)
  {
  }

  /**
   * The clock as the corrected allocator sees it: no reading is earlier than the last
   * millisecond seen, and the reading a wait ends with is past it.
   */
  predicate ClockConsistent(s: ClockState, readings: seq<int>, laters: seq<int>)
    requires |laters| == |readings|
    decreases |readings|
  {
    readings == [] ||
      (s.millisNow <= readings[0] && s.millisNow < laters[0]
       && ClockConsistent(ThrottledStep(s, readings[0], laters[0]).next, readings[1..], laters[1..]))
  }

  /** The results of consecutive calls of the corrected step. */
  function ThrottledRun(s: ClockState, readings: seq<int>, laters: seq<int>): (r: seq<Result<Tick, Exception>>)
    requires |laters| == |readings| && ClockConsistent(s, readings, laters)
    ensures |r| == |readings|
    decreases |readings|
  {
    if readings == [] then []
    else
      var o := ThrottledStep(s, readings[0], laters[0]);
      [o.tick] + ThrottledRun(o.next, readings[1..], laters[1..])
  }

  /** The number of successful ticks of r in millisecond m. */
  function Count(r: seq<Result<Tick, Exception>>, m: int): (n: nat)
    ensures n <= |r|
    ensures n == 0 <== forall i :: 0 <= i < |r| && r[i].Success? ==> r[i].value.millis != m
    decreases |r|
  {
    if r == [] then 0
    else (if r[0].Success? && r[0].value.millis == m then 1 else 0) + Count(r[1..], m)
  }

  /** The counter of the corrected allocator stays within the table. */
  predicate InTable(s: ClockState) {
    0 <= s.counter <= SLOTS
  }

  /**
   * From a counter within the table, and for readings that never fall below the last
   * millisecond seen, no call of the corrected allocator throws.
   */
  lemma {:induction false} ThrottledNeverThrows(s: ClockState, readings: seq<int>, laters: seq<int>)
    requires InTable(s) && |laters| == |readings| && ClockConsistent(s, readings, laters)
    ensures var r := ThrottledRun(s, readings, laters);
      forall i :: 0 <= i < |r| ==> r[i].Success?
    decreases |readings|
  {
    if readings != [] {
      var o := ThrottledStep(s, readings[0], laters[0]);
      assert InTable(o.next);
      ThrottledNeverThrows(o.next, readings[1..], laters[1..]);
      var r := ThrottledRun(s, readings, laters);
      assert r == [o.tick] + ThrottledRun(o.next, readings[1..], laters[1..]);
    }
  }

  /** How many more ticks millisecond m can still take in state s. */
  function Room(s: ClockState, m: int): int {
    if m < s.millisNow then 0 else if m == s.millisNow then SLOTS - s.counter else SLOTS
  }

  /**
   * For readings that never fall below the last millisecond seen, no run of the corrected
   * allocator hands out more ticks in millisecond m than s has room for.
   */
  lemma {:induction false} CountWithinRoom(s: ClockState, readings: seq<int>, laters: seq<int>, m: int)
    requires InTable(s) && |laters| == |readings| && ClockConsistent(s, readings, laters)
    ensures Count(ThrottledRun(s, readings, laters), m) <= Room(s, m)
    decreases |readings|
  {
    if readings != [] {
      var o := ThrottledStep(s, readings[0], laters[0]);
      var rest := ThrottledRun(o.next, readings[1..], laters[1..]);
      var r := ThrottledRun(s, readings, laters);
      assert r == [o.tick] + rest;
      assert r[1..] == rest;
      assert InTable(o.next) && o.tick.Success? && o.tick.value.millis == o.next.millisNow;
      CountWithinRoom(o.next, readings[1..], laters[1..], m);
    }
  }

  /**
   * For a counter within the table and readings that never fall below the last
   * millisecond seen, at most SLOTS ticks of the corrected allocator share one millisecond.
   */
  lemma AtMostSlotsPerMillisecond(s: ClockState, readings: seq<int>, laters: seq<int>, m: int)
    requires InTable(s) && |laters| == |readings| && ClockConsistent(s, readings, laters)
    ensures Count(ThrottledRun(s, readings, laters), m) <= SLOTS
  {
    CountWithinRoom(s, readings, laters, m);
  }

  /**
   * After tick (m, o), and for readings that never fall below the last millisecond seen,
   * every later tick of the corrected allocator comes after (m, o).
   */
  lemma {:induction false} ThrottledLaterTicks(s: ClockState, m: int, o: int, readings: seq<int>, laters: seq<int>)
    requires InTable(s) && AfterTick(s, m, o) && |laters| == |readings| && ClockConsistent(s, readings, laters)
    ensures var r := ThrottledRun(s, readings, laters);
      forall i :: 0 <= i < |r| && r[i].Success? ==> Before(Tick(m, o), r[i].value)
    decreases |readings|
  {
    if readings != [] {
      var out := ThrottledStep(s, readings[0], laters[0]);
      var rest := ThrottledRun(out.next, readings[1..], laters[1..]);
      var r := ThrottledRun(s, readings, laters);
      assert r == [out.tick] + rest;
      var t := out.tick.value;
      assert Before(Tick(m, o), t);
      assert InTable(out.next) && AfterTick(out.next, t.millis, t.offset);
      ThrottledLaterTicks(out.next, t.millis, t.offset, readings[1..], laters[1..]);
      assert var r2 := ThrottledRun(out.next, readings[1..], laters[1..]);
        forall k :: 0 <= k < |r2| && r2[k].Success? ==> Before(Tick(t.millis, t.offset), r2[k].value);
      forall i | 1 <= i < |r| && r[i].Success?
        ensures Before(Tick(m, o), r[i].value)
      {
        assert r[i] == rest[i - 1];
        BeforeTransitive(Tick(m, o), t, r[i].value);
      }
    }
  }

  /**
   * For readings that never fall below the last millisecond seen, the ticks of the
   * corrected allocator strictly increase, millisecond first, then offset, for runs of
   * any length.
   */
  lemma {:induction false} ThrottledIncreasing(s: ClockState, readings: seq<int>, laters: seq<int>)
    requires InTable(s) && |laters| == |readings| && ClockConsistent(s, readings, laters)
    ensures Increasing(ThrottledRun(s, readings, laters))
    decreases |readings|
  {
    if readings != [] {
      var out := ThrottledStep(s, readings[0], laters[0]);
      var tail := ThrottledRun(out.next, readings[1..], laters[1..]);
      var r := ThrottledRun(s, readings, laters);
      assert r == [out.tick] + tail;
      var t := out.tick.value;
      assert InTable(out.next) && AfterTick(out.next, t.millis, t.offset);
      ThrottledIncreasing(out.next, readings[1..], laters[1..]);
      ThrottledLaterTicks(out.next, t.millis, t.offset, readings[1..], laters[1..]);
      assert var r2 := ThrottledRun(out.next, readings[1..], laters[1..]);
        forall k :: 0 <= k < |r2| && r2[k].Success? ==> Before(Tick(t.millis, t.offset), r2[k].value);
      forall i, j | 0 <= i < j < |r| && r[i].Success? && r[j].Success?
        ensures Before(r[i].value, r[j].value)
      {
        assert r[j] == tail[j - 1];
        if i > 0 {
          assert r[i] == tail[i - 1];
        }
      }
    }
  }

  /**
   * The bookkeeping after tick (m, o): the last millisecond seen is at least m, and
   * the counter is past o / 10.
   */
  predicate AfterTick(s: ClockState, m: int, o: int) {
    m <= s.millisNow && o < 10 * s.counter
  }

  lemma BeforeTransitive(a: Tick, b: Tick, c: Tick)
    requires Before(a, b) && Before(b, c)
    ensures Before(a, c)
  {
  }

  /**
   * After tick (m, o), every tick issued for readings no earlier than m comes after
   * (m, o), while NoWrap holds.
   */
  lemma {:induction false} LaterTicks(s: ClockState, m: int, o: int, readings: seq<int>)
    requires AfterTick(s, m, o) && NoWrap(s, readings)
    requires Sorted(readings) && (|readings| > 0 ==> m <= readings[0])
    ensures var r := Run(s, readings);
      forall i :: 0 <= i < |r| && r[i].Success? ==> Before(Tick(m, o), r[i].value)
    decreases |readings|
  {
    if readings != [] {
      var now := readings[0];
      var out := Step(s, now);
      var rest := readings[1..];
      assert Sorted(rest);
      var r := Run(s, readings);
      assert r == [out.tick] + Run(out.next, rest);
      if out.tick.Success? {
        var t := out.tick.value;
        assert Before(Tick(m, o), t);
        assert AfterTick(out.next, t.millis, t.offset);
        LaterTicks(out.next, t.millis, t.offset, rest);
        forall i | 1 <= i < |r| && r[i].Success?
          ensures Before(Tick(m, o), r[i].value)
        {
          assert r[i] == Run(out.next, rest)[i - 1];
          BeforeTransitive(Tick(m, o), t, r[i].value);
        }
      } else {
        assert out.next == ClockState(s.millisNow, s.counter + 1);
        LaterTicks(out.next, m, o, rest);
        forall i | 1 <= i < |r| && r[i].Success?
          ensures Before(Tick(m, o), r[i].value)
        {
          assert r[i] == Run(out.next, rest)[i - 1];
        }
      }
    }
  }

  /**
   * For wall-clock readings that never go backwards, the ticks newTimeUUID() hands out
   * strictly increase (millisecond first, then offset), whatever the state it starts from,
   * while NoWrap holds.
   */
  lemma {:induction false} RunIncreasing(s: ClockState, readings: seq<int>)
    requires NoWrap(s, readings) && Sorted(readings)
    ensures Increasing(Run(s, readings))
    decreases |readings|
  {
    if readings != [] {
      var out := Step(s, readings[0]);
      var rest := readings[1..];
      assert Sorted(rest);
      var r := Run(s, readings);
      var tail := Run(out.next, rest);
      assert r == [out.tick] + tail;
      RunIncreasing(out.next, rest);
      if out.tick.Success? {
        var t := out.tick.value;
        LaterTicks(out.next, t.millis, t.offset, rest);
        assert var r2 := Run(out.next, rest);
          forall k :: 0 <= k < |r2| && r2[k].Success? ==> Before(Tick(t.millis, t.offset), r2[k].value);
      }
      forall i, j | 0 <= i < j < |r| && r[i].Success? && r[j].Success?
        ensures Before(r[i].value, r[j].value)
      {
        assert r[j] == tail[j - 1];
        if i > 0 {
          assert r[i] == tail[i - 1];
        }
      }
    }
  }

  /**
   * A tick the allocator hands out for a non-negative reading decodes back to that
   * millisecond, and to its microsecond plus a tenth of the offset, once packed.
   */
  lemma IssuedTickDecodes(s: ClockState, now: int, clockSeq: int, node: seq<Byte>)
    requires |node| == 6 && 0 <= now && Ticks(now, 10 * (SLOTS - 1)) < TWO_60
    requires Step(s, now).tick.Success?
    ensures var t := Step(s, now).tick.value;
      var u := Some(TimeUuid(Ticks(now, t.offset), clockSeq, node));
      TimestampInMillis(u) == Success(now) && TimestampInMicros(u) == Success(now * 1000 + t.offset / 10)
  {
    var t := Step(s, now).tick.value;
    assert Ticks(now, t.offset) <= Ticks(now, 10 * (SLOTS - 1));
    SameMillisecond(now, t.offset, clockSeq, node);
  }

  /**
   * Packed with non-negative readings, a tick issued before another one has a smaller
   * UUID timestamp.
   */
  lemma BeforeMeansEarlierTimestamp(a: Tick, b: Tick, csA: int, nodeA: seq<Byte>, csB: int, nodeB: seq<Byte>)
    requires |nodeA| == 6 && |nodeB| == 6
    requires 0 <= a.millis && 0 <= a.offset < CLOCK_MULTIPLIER && 0 <= b.offset < CLOCK_MULTIPLIER
    requires Ticks(b.millis, b.offset) < TWO_60
    requires Before(a, b)
    ensures Timestamp(TimeUuid(Ticks(a.millis, a.offset), csA, nodeA))
          < Timestamp(TimeUuid(Ticks(b.millis, b.offset), csB, nodeB))
  {
    EarlierTicksEarlierTimestamp(Ticks(a.millis, a.offset), csA, nodeA, Ticks(b.millis, b.offset), csB, nodeB);
  }

  /**
   * With 820 offsets of the millisecond used, the next call hands out offset 8200. Its
   * UUID decodes to that millisecond, yet lies above maxTimeUUID of it, past 0x1FFF.
   */
  lemma AllocatorAboveMaxBoundary(now: int, clockSeq: int, node: seq<Byte>)
    requires |node| == 6 && 0 <= now && Ticks(now, 10 * (SLOTS - 1)) < TWO_60
    ensures Step(ClockState(now, 820), now).tick == Success(Tick(now, 8200))
    ensures var u := TimeUuid(Ticks(now, 8200), clockSeq, node);
      && TimestampInMillis(Some(u)) == Success(now)
      && Timestamp(u) > Timestamp(TimeUuid(Ticks(now, 0x1FFF), 0x3FFF, ONES_NODE))
  {
    OffsetAboveMaxBoundary(now, 8200, clockSeq, node);
  }

  /**
   * Every tick the allocator hands out packs into a UUID between minTimeUUID of its
   * millisecond and the maximum packed at the last offset of it.
   */
  lemma IssuedTickWithinMillisecond(s: ClockState, now: int, clockSeq: int, node: seq<Byte>)
    requires |node| == 6 && 0 <= now && Ticks(now, LAST_OFFSET) < TWO_60
    requires Step(s, now).tick.Success?
    ensures var t := Timestamp(TimeUuid(Ticks(now, Step(s, now).tick.value.offset), clockSeq, node));
      && Timestamp(TimeUuid(Ticks(now, 0), 0, ZERO_NODE)) <= t
      && t <= Timestamp(TimeUuid(Ticks(now, LAST_OFFSET), 0x3FFF, ONES_NODE))
  {
    WithinMillisecond(now, Step(s, now).tick.value.offset, clockSeq, node);
  }

  /**
   * The static state of UUIDUtils: the MICROS table, timestampMillisNow and
   * currentMicrosPoint. The lock around the update is left out: calls are sequential.
   */
  class UuidClock {
    const micros: array<int>
    var timestampMillisNow: int
    var currentMicrosPoint: int

    ghost predicate Valid()
      reads this, micros
    {
      && micros.Length == SLOTS
      && (forall x :: 0 <= x < SLOTS ==> micros[x] == 10 * x)
      && IsInt32(currentMicrosPoint)
    }

    function State(): ClockState
      reads this
    {
      ClockState(timestampMillisNow, currentMicrosPoint)
    }

    /** The static initialiser: MICROS[x] = x * 10, the clock read once, the counter at 0. */
    constructor(startMillis: int)
      ensures Valid() && fresh(micros)
      ensures State() == ClockState(startMillis, 0)
    {
      var table := new int[SLOTS];
      for x := 0 to SLOTS
        invariant forall y :: 0 <= y < x ==> table[y] == 10 * y
      {
        table[x] := x * 10;
      }
      micros := table;
      timestampMillisNow := startMillis;
      currentMicrosPoint := 0;
    }

    /**
     * The bookkeeping of newTimeUUID() for the wall-clock reading now: the reset on a
     * new millisecond, then MICROS[currentMicrosPoint.getAndIncrement()].
     */
    method NextTick(now: int) returns (tick: Result<Tick, Exception>)
      requires Valid()
      modifies this
      ensures Valid()
      ensures State() == Step(old(State()), now).next
      ensures tick == Step(old(State()), now).tick
    {
      // a counter above 1000 makes the call sleep for a millisecond; the sleep reads
      // no state and the reading now is not taken again
      if now > timestampMillisNow {
        timestampMillisNow := now;
        currentMicrosPoint := 0;
      }
      var c := currentMicrosPoint;
      currentMicrosPoint := Wrap32(c + 1);
      if 0 <= c < micros.Length {
        tick := Success(Tick(now, micros[c]));
      } else {
        tick := Failure(ArrayIndexOutOfBounds);
      }
    }

    /**
     * newTimeUUID(): the next tick, packed with a random clock sequence and a random
     * multicast node. A reading of 0 would re-enter newTimeUUID(), so it is excluded.
     */
    method NewTimeUuid(now: int, node: seq<Byte>, randomInt: int) returns (u: Result<Uuid, Exception>)
      requires Valid() && |node| == 6 && now != 0
      modifies this
      ensures Valid()
      ensures var o := Step(old(State()), now);
        && State() == o.next
        && (o.tick.Failure? ==> u == Failure(o.tick.error))
        && (o.tick.Success? ==> u == Success(TimeUuid(Ticks(now, o.tick.value.offset), RandomClockSequence(randomInt), node)))
    {
      var tick := NextTick(now);
      if tick.Failure? {
        u := Failure(tick.error);
      } else {
        var id := BuildTimeUuid(now, tick.value.offset, node, randomInt);
        u := Success(id);
      }
    }

    /**
     * newTimeUUID(ts, timeoffset): a timestamp of 0 means "now" and goes through the
     * allocator (the offset is then ignored); any other timestamp is packed as given
     * and leaves the allocator alone.
     */
    method NewTimeUuidWithOffset(ts: int, timeOffset: int, now: int, node: seq<Byte>, randomInt: int)
      returns (u: Result<Uuid, Exception>)
      requires Valid() && |node| == 6 && (ts == 0 ==> now != 0)
      modifies this
      ensures Valid()
      ensures ts != 0 ==>
        State() == old(State()) && u == Success(TimeUuid(Ticks(ts, timeOffset), RandomClockSequence(randomInt), node))
      ensures ts == 0 ==> var o := Step(old(State()), now);
        && State() == o.next
        && (o.tick.Failure? ==> u == Failure(o.tick.error))
        && (o.tick.Success? ==> u == Success(TimeUuid(Ticks(now, o.tick.value.offset), RandomClockSequence(randomInt), node)))
    {
      if ts == 0 {
        u := NewTimeUuid(now, node, randomInt);
      } else {
        var id := BuildTimeUuid(ts, timeOffset, node, randomInt);
        u := Success(id);
      }
    }

    /** newTimeUUID(ts): newTimeUUID(ts, timeoffset) with a random 13-bit offset. */
    method NewTimeUuidAt(ts: int, randomResolution: int, now: int, node: seq<Byte>, randomInt: int)
      returns (u: Result<Uuid, Exception>)
      requires Valid() && |node| == 6 && (ts == 0 ==> now != 0)
      modifies this
      ensures Valid()
      ensures ts != 0 ==>
        State() == old(State())
        && u == Success(TimeUuid(Ticks(ts, RandomTimeResolution(randomResolution)), RandomClockSequence(randomInt), node))
      ensures ts == 0 ==> var o := Step(old(State()), now);
        && State() == o.next
        && (o.tick.Failure? ==> u == Failure(o.tick.error))
        && (o.tick.Success? ==> u == Success(TimeUuid(Ticks(now, o.tick.value.offset), RandomClockSequence(randomInt), node)))
    {
      u := NewTimeUuidWithOffset(ts, RandomTimeResolution(randomResolution), now, node, randomInt);
    }
  }
}
