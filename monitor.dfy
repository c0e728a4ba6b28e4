/** The end of a recording session: snapshot, order, reconstruct, analyse. */
module Monitor {
  import opened Events
  import opened Capture
  import opened Ordering
  import opened Reconstruction
  import opened Analysis

  /** The per-key analysis runs only for sessions with at least this many events. */
  const MIN_EVENTS_FOR_ANALYSIS: nat := 10

  datatype Outcome =
    | NoEventsRecorded
    | NoValidEvents
    | Recorded(events: seq<KeyEvent>, pressEvents: nat, releaseEvents: nat,
               analysis: Option<map<string, IntervalStats>>)

  /** The recorded events still in the buffer: the last min(|h|, N). */
  function SurvivingWrites(h: seq<RawEvent>): (w: seq<RawEvent>)
    ensures |w| == if |h| < RING_BUFFER_SIZE then |h| else RING_BUFFER_SIZE
  {
    h[|h| - (if |h| < RING_BUFFER_SIZE then |h| else RING_BUFFER_SIZE)..]
  }

  /** What the reconstruction works on: the surviving writes in tick order
      without zero ticks. */
  function ValidEntries(h: seq<RawEvent>): seq<RawEvent>
  {
    RetainNonzero(SortByTsc(SurvivingWrites(h)))
  }

  lemma ValidEntriesSorted(h: seq<RawEvent>)
    ensures SortedByTsc(ValidEntries(h))
  {
    SortThenRetain(SurvivingWrites(h));
  }

  /** The snapshot in tick order with the zero ticks dropped. */
  method ValidSnapshot(buffer: RingBuffer) returns (valid: seq<RawEvent>)
    requires buffer.Valid()
    ensures valid == ValidEntries(buffer.history)
    ensures SortedByTsc(valid)
  {
    var raw := buffer.Snapshot();
    assert raw == SurvivingWrites(buffer.history);
    valid := RetainNonzero(SortByTsc(raw));
    ValidEntriesSorted(buffer.history);
  }

  /** `outcome` records the reconstruction of the tick-sorted entries
      `valid`, their press and release counts, and the per-key report exactly
      when there are at least MIN_EVENTS_FOR_ANALYSIS events. */
  ghost predicate RecordedFrom(valid: seq<RawEvent>, freq: nat, outcome: Outcome)
  {
    outcome.Recorded? &&
    SortedByTsc(valid) &&
    IsReconstruction(valid, freq, outcome.events) &&
    outcome.pressEvents == CountPresses(valid) &&
    outcome.pressEvents + outcome.releaseEvents == |outcome.events| &&
    (outcome.analysis.Some? <==> |outcome.events| >= MIN_EVENTS_FOR_ANALYSIS) &&
    (outcome.analysis.Some? ==>
      (forall k :: k in outcome.analysis.value <==> |DownTimes(outcome.events, k)| >= MIN_SAMPLES + 1) &&
      (forall k :: k in outcome.analysis.value ==>
        outcome.analysis.value[k] == Summarize(Gaps(DownTimes(outcome.events, k)))))
  }

  /** What `main` does once recording has stopped. */
  method Process(buffer: RingBuffer, freq: nat) returns (outcome: Outcome)
    requires buffer.Valid()
    ensures outcome.NoEventsRecorded? <==> buffer.writeIndex == 0
    ensures outcome.NoValidEvents? <==> buffer.writeIndex > 0 && ValidEntries(buffer.history) == []
    ensures outcome.Recorded? ==> RecordedFrom(ValidEntries(buffer.history), freq, outcome)
  {
    if buffer.writeIndex == 0 {
      return NoEventsRecorded;
    }
    var valid := ValidSnapshot(buffer);
    if valid == [] {
      return NoValidEvents;
    }
    var events, pressEvents, releaseEvents := Reconstruct(valid, freq);
    var analysis := None;
    if |events| >= MIN_EVENTS_FOR_ANALYSIS {
      var report := GenerateAnalysis(events);
      analysis := Some(report);
    }
    outcome := Recorded(events, pressEvents, releaseEvents, analysis);
    assert RecordedFrom(valid, freq, outcome);
  }

  /** Number of zero-tick entries. */
  function ZeroTicks(s: seq<RawEvent>): (n: nat)
    ensures n <= |s|
  {
    if s == [] then 0 else ZeroTicks(s[1..]) + (if s[0].tsc == 0 then 1 else 0)
  }

  lemma {:induction false} RetainCount(s: seq<RawEvent>)
    ensures |RetainNonzero(s)| + ZeroTicks(s) == |s|
  {
    if s != [] {
      RetainCount(s[1..]);
    }
  }

  /** The reconstruction has one event per surviving write, less the writes
      that carried a zero tick; in particular, without a wrap and with no zero
      tick, one per write. */
  lemma ValidEntriesCount(h: seq<RawEvent>)
    ensures |ValidEntries(h)| == |SurvivingWrites(h)| - ZeroTicks(SurvivingWrites(h))
  {
    var w := SurvivingWrites(h);
    var a, b := RetainNonzero(SortByTsc(w)), RetainNonzero(w);
    assert multiset(a) == multiset(b) by {
      forall e ensures multiset(a)[e] == multiset(b)[e] {
        assert multiset(SortByTsc(w))[e] == multiset(w)[e];
      }
    }
    assert |a| == |multiset(a)| == |multiset(b)| == |b|;
    RetainCount(w);
  }

  /** With strictly increasing non-zero ticks, sorting and retaining change
      nothing: the valid entries are the surviving writes as recorded. */
  lemma ValidEntriesOfIncreasingWrites(h: seq<RawEvent>)
    requires StrictlyIncreasingTsc(h)
    requires forall i :: 0 <= i < |h| ==> h[i].tsc > 0
    ensures ValidEntries(h) == SurvivingWrites(h)
  {
    var w := SurvivingWrites(h);
    SnapshotOfIncreasingWrites(h, w);
    SortedPermutationUnique(w, SortByTsc(w));
    assert w != [] ==> w[0] == h[|h| - |w|];
    AllPositiveRetained(w);
  }

  /** Reading a reconstruction of a suffix of `h` back in terms of `h`. */
  lemma ReconstructionOfSuffix(h: seq<RawEvent>, w: seq<RawEvent>, freq: nat, events: seq<KeyEvent>)
    requires |w| <= |h| && w == h[|h| - |w|..]
    requires SortedByTsc(w)
    requires IsReconstruction(w, freq, events)
    ensures forall i :: 0 <= i < |events| ==>
      var write := h[|h| - |events| + i];
      events[i].keyCode == write.vkCode &&
      (events[i].action == Down <==> write.action == ACTION_DOWN) &&
      events[i].timestampUs == ToMicros(write.tsc - h[|h| - |events|].tsc, freq)
  {
    var off := |h| - |w|;
    forall i | 0 <= i < |events|
      ensures events[i].keyCode == h[off + i].vkCode
      ensures events[i].action == Down <==> h[off + i].action == ACTION_DOWN
      ensures events[i].timestampUs == ToMicros(h[off + i].tsc - h[off].tsc, freq)
    {
      assert EventFor(w, freq, i, events[i]);
      assert w[i] == h[off + i];
      assert w[0] == h[off];
    }
  }

  /** End to end: event i of the reconstruction is recorded write
      |h| - min(|h|, N) + i, with its key code, direction, and the time
      since the oldest surviving write. */
  lemma EndToEnd(h: seq<RawEvent>, freq: nat, events: seq<KeyEvent>)
    requires StrictlyIncreasingTsc(h)
    requires forall i :: 0 <= i < |h| ==> h[i].tsc > 0
    requires SortedByTsc(ValidEntries(h))
    requires IsReconstruction(ValidEntries(h), freq, events)
    ensures |events| == |SurvivingWrites(h)|
    ensures forall i :: 0 <= i < |events| ==>
      var write := h[|h| - |events| + i];
      events[i].keyCode == write.vkCode &&
      (events[i].action == Down <==> write.action == ACTION_DOWN) &&
      events[i].timestampUs == ToMicros(write.tsc - h[|h| - |events|].tsc, freq)
  {
    ValidEntriesOfIncreasingWrites(h);
    ReconstructionOfSuffix(h, SurvivingWrites(h), freq, events);
  }
}
