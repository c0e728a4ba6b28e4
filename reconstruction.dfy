/** Turning the ordered raw entries into numbered, time-normalised key events. */
module Reconstruction {
  import opened Events
  import opened KeyNames

  const MICROS_PER_SECOND: nat := 1_000_000

  /** Whole microseconds in `ticks` at `freq` ticks per second, rounded down
      and saturating at the u64 maximum as a float-to-u64 cast does. At a
      frequency of zero the scale factor is infinite: any non-zero tick count
      saturates, and zero ticks give NaN, which the cast turns into 0. */
  function ToMicros(ticks: nat, freq: nat): (us: u64)
  {
    if freq == 0 then (if ticks == 0 then 0 else U64_MAX)
    else
      var q := ticks * MICROS_PER_SECOND / freq;
      if q > U64_MAX then U64_MAX else q
  }

  /** The conversion is the floor of ticks * 10^6 / freq unless that exceeds
      the u64 range, where it saturates. */
  lemma ToMicrosFloor(ticks: nat, freq: nat)
    requires freq > 0
    ensures ToMicros(ticks, freq) < U64_MAX ==>
      ToMicros(ticks, freq) * freq <= ticks * MICROS_PER_SECOND < (ToMicros(ticks, freq) + 1) * freq
    ensures ToMicros(ticks, freq) == U64_MAX ==> U64_MAX * freq <= ticks * MICROS_PER_SECOND
  {
    DivBounds(ticks * MICROS_PER_SECOND, freq);
  }

  lemma DivBounds(x: nat, d: nat)
    requires d > 0
    ensures (x / d) * d <= x < (x / d + 1) * d
  {
  }

  lemma DivMonotone(x: nat, y: nat, d: nat)
    requires d > 0 && x <= y
    ensures x / d <= y / d
  {
    DivBounds(x, d);
    DivBounds(y, d);
  }

  lemma ToMicrosMonotone(a: nat, b: nat, freq: nat)
    requires a <= b
    ensures ToMicros(a, freq) <= ToMicros(b, freq)
  {
    if freq > 0 {
      assert a * MICROS_PER_SECOND <= b * MICROS_PER_SECOND;
      DivMonotone(a * MICROS_PER_SECOND, b * MICROS_PER_SECOND, freq);
    }
  }

  /** At one tick per microsecond the conversion is the identity. */
  lemma ToMicrosAtOneMegahertz(ticks: u64)
    ensures ToMicros(ticks, MICROS_PER_SECOND) == ticks
  {
  }

  /** The reconstructed record for entry i of the tick-sorted sequence. */
  ghost predicate EventFor(raw: seq<RawEvent>, freq: nat, i: nat, e: KeyEvent)
    requires SortedByTsc(raw) && i < |raw|
  {
    e.eventId == i &&
    e.timestampUs == ToMicros(raw[i].tsc - raw[0].tsc, freq) &&
    e.intervalUs == (if i == 0 then 0 else ToMicros(raw[i].tsc - raw[i - 1].tsc, freq)) &&
    e.keyCode == raw[i].vkCode &&
    e.keyName == KeyName(raw[i].vkCode) &&
    e.action == (if raw[i].action == ACTION_DOWN then Down else Up)
  }

  /** `events` is the reconstruction of `raw`: one record per entry, in order. */
  ghost predicate IsReconstruction(raw: seq<RawEvent>, freq: nat, events: seq<KeyEvent>)
    requires SortedByTsc(raw)
  {
    |events| == |raw| &&
    forall i :: 0 <= i < |events| ==> EventFor(raw, freq, i, events[i])
  }

  /** Number of entries whose action is a press. */
  function CountPresses(s: seq<RawEvent>): (n: nat)
    ensures n <= |s|
  {
    if s == [] then 0
    else CountPresses(s[..|s| - 1]) + (if s[|s| - 1].action == ACTION_DOWN then 1 else 0)
  }

  /** Appending the record for the next entry keeps every record correct. */
  lemma ExtendReconstruction(raw: seq<RawEvent>, freq: nat, events: seq<KeyEvent>, e: KeyEvent)
    requires SortedByTsc(raw) && |events| < |raw|
    requires forall k :: 0 <= k < |events| ==> EventFor(raw, freq, k, events[k])
    requires EventFor(raw, freq, |events|, e)
    ensures forall k :: 0 <= k < |events| + 1 ==> EventFor(raw, freq, k, (events + [e])[k])
  {
  }

  /** The loop of the session end: numbers the entries, measures each from
      the first entry and from the previous one, labels key and action, and
      counts presses and releases. */
  method Reconstruct(raw: seq<RawEvent>, freq: nat) returns (events: seq<KeyEvent>, pressEvents: nat, releaseEvents: nat)
    requires raw != []
    requires SortedByTsc(raw)
    ensures IsReconstruction(raw, freq, events)
    ensures pressEvents == CountPresses(raw)
    ensures pressEvents + releaseEvents == |events|
  {
    var startTsc := raw[0].tsc;
    var lastTsc := startTsc;
    pressEvents, releaseEvents := 0, 0;
    events := [];
    for i := 0 to |raw|
      invariant |events| == i
      invariant lastTsc == raw[if i == 0 then 0 else i - 1].tsc
      invariant forall k :: 0 <= k < i ==> EventFor(raw, freq, k, events[k])
      invariant pressEvents == CountPresses(raw[..i])
      invariant pressEvents + releaseEvents == i
    {
      var entry := raw[i];
      var timestampUs := ToMicros(entry.tsc - startTsc, freq);
      var intervalUs := ToMicros(entry.tsc - lastTsc, freq);
      var event := KeyEvent(
        i, timestampUs, entry.vkCode, KeyName(entry.vkCode),
        if entry.action == ACTION_DOWN then Down else Up, intervalUs);
      if entry.action == ACTION_DOWN {
        pressEvents := pressEvents + 1;
      } else {
        releaseEvents := releaseEvents + 1;
      }
      assert raw[..i + 1][..i] == raw[..i];
      assert EventFor(raw, freq, i, event);
      ExtendReconstruction(raw, freq, events, event);
      lastTsc := entry.tsc;
      events := events + [event];
    }
    assert raw[..|raw|] == raw;
  }

  /** The timing fields of record i. */
  lemma RecordTimes(raw: seq<RawEvent>, freq: nat, events: seq<KeyEvent>, i: nat)
    requires SortedByTsc(raw)
    requires IsReconstruction(raw, freq, events) && i < |events|
    ensures events[i].timestampUs == ToMicros(raw[i].tsc - raw[0].tsc, freq)
    ensures events[i].intervalUs == if i == 0 then 0 else ToMicros(raw[i].tsc - raw[i - 1].tsc, freq)
  {
    assert EventFor(raw, freq, i, events[i]);
  }

  /** Timestamps never go down, start at zero, and no interval is longer
      than the time since the first event. */
  lemma TimestampsNonDecreasing(raw: seq<RawEvent>, freq: nat, events: seq<KeyEvent>)
    requires SortedByTsc(raw)
    requires IsReconstruction(raw, freq, events)
    ensures events != [] ==> events[0].timestampUs == 0 && events[0].intervalUs == 0
    ensures forall i, j :: 0 <= i <= j < |events| ==> events[i].timestampUs <= events[j].timestampUs
    ensures forall i :: 0 <= i < |events| ==> events[i].intervalUs <= events[i].timestampUs
  {
    if events != [] {
      RecordTimes(raw, freq, events, 0);
    }
    forall i, j | 0 <= i <= j < |events|
      ensures events[i].timestampUs <= events[j].timestampUs
    {
      RecordTimes(raw, freq, events, i);
      RecordTimes(raw, freq, events, j);
      ToMicrosMonotone(raw[i].tsc - raw[0].tsc, raw[j].tsc - raw[0].tsc, freq);
    }
    forall i | 0 <= i < |events|
      ensures events[i].intervalUs <= events[i].timestampUs
    {
      RecordTimes(raw, freq, events, i);
      if i > 0 {
        ToMicrosMonotone(raw[i].tsc - raw[i - 1].tsc, raw[i].tsc - raw[0].tsc, freq);
      }
    }
  }

  /** Sum of the intervals of a prefix of the events. */
  function SumIntervals(events: seq<KeyEvent>): nat
  {
    if events == [] then 0 else SumIntervals(events[..|events| - 1]) + events[|events| - 1].intervalUs
  }

  /** At one tick per microsecond, each timestamp is the sum of the
      intervals up to and including its own. */
  lemma {:induction false} TimestampIsSumOfIntervals(raw: seq<RawEvent>, events: seq<KeyEvent>, i: nat)
    requires SortedByTsc(raw)
    requires IsReconstruction(raw, MICROS_PER_SECOND, events)
    requires i < |events|
    ensures events[i].timestampUs == SumIntervals(events[..i + 1])
  {
    assert EventFor(raw, MICROS_PER_SECOND, i, events[i]);
    ToMicrosAtOneMegahertz(raw[i].tsc - raw[0].tsc);
    if i > 0 {
      TimestampIsSumOfIntervals(raw, events, i - 1);
      assert events[..i + 1][..i] == events[..i];
      assert EventFor(raw, MICROS_PER_SECOND, i - 1, events[i - 1]);
      ToMicrosAtOneMegahertz(raw[i - 1].tsc - raw[0].tsc);
      ToMicrosAtOneMegahertz(raw[i].tsc - raw[i - 1].tsc);
    }
  }

  /** Number of records labelled "down". */
  function CountDown(events: seq<KeyEvent>): (n: nat)
    ensures n <= |events|
  {
    if events == [] then 0
    else CountDown(events[..|events| - 1]) + (if events[|events| - 1].action == Down then 1 else 0)
  }

  /** The press count is the number of "down" records; the rest are "up". */
  lemma {:induction false} PressesAreDownRecords(raw: seq<RawEvent>, freq: nat, events: seq<KeyEvent>)
    requires SortedByTsc(raw)
    requires IsReconstruction(raw, freq, events)
    ensures CountDown(events) == CountPresses(raw)
    ensures forall i :: 0 <= i < |events| ==> (events[i].action == Down <==> raw[i].action == ACTION_DOWN)
    decreases |raw|
  {
    if raw != [] {
      var n := |raw| - 1;
      var raw', events' := raw[..n], events[..n];
      assert SortedByTsc(raw');
      forall i | 0 <= i < n ensures EventFor(raw', freq, i, events'[i]) {
        assert EventFor(raw, freq, i, events[i]);
      }
      PressesAreDownRecords(raw', freq, events');
      assert EventFor(raw, freq, n, events[n]);
    }
    forall i | 0 <= i < |events| ensures events[i].action == Down <==> raw[i].action == ACTION_DOWN {
      assert EventFor(raw, freq, i, events[i]);
    }
  }

  /** A worked example: ticks 100, 150, 225 at 1 MHz give timestamps
      0, 50, 125 and intervals 0, 50, 75. */
  lemma IntervalDerivationExample(events: seq<KeyEvent>)
    requires IsReconstruction([RawEvent(100, 0x41, 0), RawEvent(150, 0x41, 1), RawEvent(225, 0x42, 0)], MICROS_PER_SECOND, events)
    ensures |events| == 3
    ensures events[0].timestampUs == 0 && events[1].timestampUs == 50 && events[2].timestampUs == 125
    ensures events[0].intervalUs == 0 && events[1].intervalUs == 50 && events[2].intervalUs == 75
  {
    var raw := [RawEvent(100, 0x41, 0), RawEvent(150, 0x41, 1), RawEvent(225, 0x42, 0)];
    assert EventFor(raw, MICROS_PER_SECOND, 0, events[0]);
    assert EventFor(raw, MICROS_PER_SECOND, 1, events[1]);
    assert EventFor(raw, MICROS_PER_SECOND, 2, events[2]);
  }
}
