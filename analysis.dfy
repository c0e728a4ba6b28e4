/** Per-key press-to-press intervals and their integer summary. */
module Analysis {
  import opened Events

  /** Keys with fewer samples than this are left out of the report. */
  const MIN_SAMPLES: nat := 5

  /** `a.saturating_sub(b)` on u64. */
  function SaturatingSub(a: u64, b: u64): (r: u64)
    ensures a >= b ==> r + b == a
    ensures a < b ==> r == 0
  {
    if a >= b then a - b else 0
  }

  /** Timestamps of the "down" records of `key`, in record order. */
  function DownTimes(events: seq<KeyEvent>, key: string): seq<u64>
  {
    if events == [] then []
    else
      var e := events[|events| - 1];
      DownTimes(events[..|events| - 1], key) + (if e.action == Down && e.keyName == key then [e.timestampUs] else [])
  }

  /** Gap between each timestamp and the one before it, saturating at 0. */
  function Gaps(ts: seq<u64>): (g: seq<u64>)
    ensures |g| == if ts == [] then 0 else |ts| - 1
    ensures forall i :: 0 <= i < |g| ==> g[i] == SaturatingSub(ts[i + 1], ts[i])
  {
    if |ts| < 2 then [] else Gaps(ts[..|ts| - 1]) + [SaturatingSub(ts[|ts| - 1], ts[|ts| - 2])]
  }

  function Last(ts: seq<u64>): u64
    requires ts != []
  {
    ts[|ts| - 1]
  }

  lemma DownTimesSnoc(prefix: seq<KeyEvent>, e: KeyEvent, key: string)
    ensures DownTimes(prefix + [e], key) == DownTimes(prefix, key) +
      (if e.action == Down && e.keyName == key then [e.timestampUs] else [])
  {
    assert (prefix + [e])[..|prefix|] == prefix;
  }

  lemma GapsSnoc(ts: seq<u64>, t: u64)
    requires ts != []
    ensures Gaps(ts + [t]) == Gaps(ts) + [SaturatingSub(t, Last(ts))]
  {
    assert (ts + [t])[..|ts|] == ts;
  }

  /** The two maps of the collection loop after the records of `prefix`:
      the last down time of every key pressed so far, and the samples of
      every key pressed at least twice. */
  ghost predicate Tracks(prefix: seq<KeyEvent>, lastDown: map<string, u64>, keyIntervals: map<string, seq<u64>>)
  {
    (forall k :: k in lastDown <==> DownTimes(prefix, k) != []) &&
    (forall k :: k in lastDown ==> lastDown[k] == Last(DownTimes(prefix, k))) &&
    (forall k :: k in keyIntervals <==> |DownTimes(prefix, k)| >= 2) &&
    (forall k :: k in keyIntervals ==> keyIntervals[k] == Gaps(DownTimes(prefix, k)))
  }

  /** The samples map after a press of e.keyName: a new sample is appended
      when the key was pressed before. */
  function AfterPress(lastDown: map<string, u64>, keyIntervals: map<string, seq<u64>>, e: KeyEvent): map<string, seq<u64>>
  {
    var key := e.keyName;
    if key in lastDown then
      keyIntervals[key := (if key in keyIntervals then keyIntervals[key] else []) + [SaturatingSub(e.timestampUs, lastDown[key])]]
    else keyIntervals
  }

  /** A press keeps Tracks once both maps are updated for it. */
  lemma TracksPress(prefix: seq<KeyEvent>, e: KeyEvent, next: seq<KeyEvent>,
                    lastDown: map<string, u64>, keyIntervals: map<string, seq<u64>>)
    requires Tracks(prefix, lastDown, keyIntervals)
    requires e.action == Down && next == prefix + [e]
    ensures Tracks(next, lastDown[e.keyName := e.timestampUs], AfterPress(lastDown, keyIntervals, e))
  {
    LastDownAfterPress(prefix, e, next, lastDown, keyIntervals);
    SampleKeysAfterPress(prefix, e, next, lastDown, keyIntervals);
    var keyIntervals' := AfterPress(lastDown, keyIntervals, e);
    forall k | k in keyIntervals'
      ensures keyIntervals'[k] == Gaps(DownTimes(next, k))
    {
      SamplesAfterPress(prefix, e, lastDown, keyIntervals, k);
    }
  }

  /** After a press, the keys with samples are the keys pressed at least twice. */
  lemma SampleKeysAfterPress(prefix: seq<KeyEvent>, e: KeyEvent, next: seq<KeyEvent>,
                             lastDown: map<string, u64>, keyIntervals: map<string, seq<u64>>)
    requires Tracks(prefix, lastDown, keyIntervals)
    requires e.action == Down && next == prefix + [e]
    ensures forall k :: k in AfterPress(lastDown, keyIntervals, e) <==> |DownTimes(next, k)| >= 2
  {
    forall k
      ensures k in AfterPress(lastDown, keyIntervals, e) <==> |DownTimes(next, k)| >= 2
    {
      DownTimesSnoc(prefix, e, k);
    }
  }

  lemma LastDownAfterPress(prefix: seq<KeyEvent>, e: KeyEvent, next: seq<KeyEvent>,
                           lastDown: map<string, u64>, keyIntervals: map<string, seq<u64>>)
    requires Tracks(prefix, lastDown, keyIntervals)
    requires e.action == Down && next == prefix + [e]
    ensures forall k :: k in lastDown[e.keyName := e.timestampUs] <==> DownTimes(next, k) != []
    ensures forall k :: k in lastDown[e.keyName := e.timestampUs] ==>
      lastDown[e.keyName := e.timestampUs][k] == Last(DownTimes(next, k))
  {
    var lastDown' := lastDown[e.keyName := e.timestampUs];
    forall k
      ensures k in lastDown' <==> DownTimes(next, k) != []
      ensures k in lastDown' ==> lastDown'[k] == Last(DownTimes(next, k))
    {
      DownTimesSnoc(prefix, e, k);
      if e.keyName != k {
        assert DownTimes(next, k) == DownTimes(prefix, k);
      }
    }
  }

  lemma SamplesAfterPress(prefix: seq<KeyEvent>, e: KeyEvent,
                          lastDown: map<string, u64>, keyIntervals: map<string, seq<u64>>, k: string)
    requires Tracks(prefix, lastDown, keyIntervals)
    requires e.action == Down
    requires k in AfterPress(lastDown, keyIntervals, e)
    ensures AfterPress(lastDown, keyIntervals, e)[k] == Gaps(DownTimes(prefix + [e], k))
  {
    DownTimesSnoc(prefix, e, k);
    var before := DownTimes(prefix, k);
    if e.keyName == k && k in lastDown {
      GapsSnoc(before, e.timestampUs);
      assert lastDown[k] == Last(before);
      if k in keyIntervals {
        assert keyIntervals[k] == Gaps(before);
      } else {
        assert |before| == 1;
        assert Gaps(before) == [];
      }
    } else {
      assert DownTimes(prefix + [e], k) == before;
    }
  }

  /** A release or any other record changes nothing. */
  lemma TracksOther(prefix: seq<KeyEvent>, e: KeyEvent, next: seq<KeyEvent>,
                    lastDown: map<string, u64>, keyIntervals: map<string, seq<u64>>)
    requires Tracks(prefix, lastDown, keyIntervals)
    requires e.action != Down && next == prefix + [e]
    ensures Tracks(next, lastDown, keyIntervals)
  {
    forall k ensures DownTimes(next, k) == DownTimes(prefix, k) {
      DownTimesSnoc(prefix, e, k);
    }
  }

  /** The press-to-press samples of every key with at least one sample. */
  method CollectIntervals(events: seq<KeyEvent>) returns (keyIntervals: map<string, seq<u64>>)
    ensures forall k :: k in keyIntervals <==> |DownTimes(events, k)| >= 2
    ensures forall k :: k in keyIntervals ==> keyIntervals[k] == Gaps(DownTimes(events, k))
  {
    var lastDown: map<string, u64> := map[];
    keyIntervals := map[];
    for i := 0 to |events|
      invariant Tracks(events[..i], lastDown, keyIntervals)
    {
      var event := events[i];
      if event.action == Down {
        TracksPress(events[..i], event, events[..i + 1], lastDown, keyIntervals);
        var key := event.keyName;
        if key in lastDown {
          var interval := SaturatingSub(event.timestampUs, lastDown[key]);
          var samples := if key in keyIntervals then keyIntervals[key] else [];
          keyIntervals := keyIntervals[key := samples + [interval]];
        }
        lastDown := lastDown[key := event.timestampUs];
      } else {
        TracksOther(events[..i], event, events[..i + 1], lastDown, keyIntervals);
      }
    }
    assert events[..|events|] == events;
    TracksSamples(events, lastDown, keyIntervals);
  }

  lemma TracksSamples(events: seq<KeyEvent>, lastDown: map<string, u64>, keyIntervals: map<string, seq<u64>>)
    requires Tracks(events, lastDown, keyIntervals)
    ensures forall k :: k in keyIntervals <==> |DownTimes(events, k)| >= 2
    ensures forall k :: k in keyIntervals ==> keyIntervals[k] == Gaps(DownTimes(events, k))
  {
  }

  function Min(a: u64, b: u64): u64 { if a <= b then a else b }
  function Max(a: u64, b: u64): u64 { if a >= b then a else b }

  /** The fold of the report: (min, max) of `s`, starting from `acc`. */
  function MinMaxFold(acc: (u64, u64), s: seq<u64>): (r: (u64, u64))
    ensures r.0 <= acc.0 && acc.1 <= r.1
    ensures forall i :: 0 <= i < |s| ==> r.0 <= s[i] <= r.1
    ensures r.0 == acc.0 || r.0 in s
    ensures r.1 == acc.1 || r.1 in s
    decreases |s|
  {
    if s == [] then acc else MinMaxFold((Min(acc.0, s[0]), Max(acc.1, s[0])), s[1..])
  }

  function Sum(s: seq<u64>): nat
  {
    if s == [] then 0 else Sum(s[..|s| - 1]) + s[|s| - 1]
  }

  /** Integer part of one key's report line. */
  datatype IntervalStats = IntervalStats(samples: nat, sum: nat, min: u64, max: u64)

  function Summarize(intervals: seq<u64>): (st: IntervalStats)
    ensures st.samples == |intervals|
    ensures forall i :: 0 <= i < |intervals| ==> st.min <= intervals[i] <= st.max
    ensures intervals != [] ==> st.min in intervals && st.max in intervals
  {
    var (lo, hi) := MinMaxFold((U64_MAX, 0), intervals);
    IntervalStats(|intervals|, Sum(intervals), lo, hi)
  }

  lemma MulSucc(n: nat, x: nat)
    ensures (n + 1) * x == n * x + x
  {
  }

  /** The sum lies between count * min and count * max. */
  lemma {:induction false} SumBounds(s: seq<u64>, lo: nat, hi: nat)
    requires forall i :: 0 <= i < |s| ==> lo <= s[i] <= hi
    ensures |s| * lo <= Sum(s) <= |s| * hi
  {
    if s != [] {
      var init := s[..|s| - 1];
      SumBounds(init, lo, hi);
      var n := |init|;
      assert Sum(s) == Sum(init) + s[n];
      MulSucc(n, lo);
      MulSucc(n, hi);
    }
  }

  /** The per-key report: every key with at least MIN_SAMPLES press-to-press
      samples, with the summary of exactly those samples. */
  method GenerateAnalysis(events: seq<KeyEvent>) returns (report: map<string, IntervalStats>)
    ensures forall k :: k in report <==> |DownTimes(events, k)| >= MIN_SAMPLES + 1
    ensures forall k :: k in report ==> report[k] == Summarize(Gaps(DownTimes(events, k)))
  {
    var keyIntervals := CollectIntervals(events);
    report := map k | k in keyIntervals && |keyIntervals[k]| >= MIN_SAMPLES :: Summarize(keyIntervals[k]);
  }

  predicate NonDecreasing(ts: seq<u64>)
  {
    forall i, j :: 0 <= i <= j < |ts| ==> ts[i] <= ts[j]
  }

  /** When the records' timestamps never go down, the down times of each key
      do not either. */
  lemma {:induction false} DownTimesOrdered(events: seq<KeyEvent>, key: string)
    requires forall i, j :: 0 <= i <= j < |events| ==> events[i].timestampUs <= events[j].timestampUs
    ensures NonDecreasing(DownTimes(events, key))
    ensures forall i :: 0 <= i < |DownTimes(events, key)| ==>
      DownTimes(events, key)[i] <= (if events == [] then 0 else events[|events| - 1].timestampUs)
  {
    if events != [] {
      var init := events[..|events| - 1];
      DownTimesOrdered(init, key);
      if init != [] {
        assert init[|init| - 1].timestampUs <= events[|events| - 1].timestampUs;
      }
    }
  }

  /** On ordered timestamps no gap saturates: each is the plain difference,
      and together they add up to the span from the first to the last. */
  lemma {:induction false} GapsOfOrderedTimes(ts: seq<u64>)
    requires NonDecreasing(ts)
    ensures forall i :: 0 <= i < |Gaps(ts)| ==> Gaps(ts)[i] == ts[i + 1] - ts[i]
    ensures ts != [] ==> Sum(Gaps(ts)) == ts[|ts| - 1] - ts[0]
  {
    if |ts| >= 2 {
      var init := ts[..|ts| - 1];
      GapsOfOrderedTimes(init);
      assert Gaps(ts)[..|Gaps(ts)| - 1] == Gaps(init);
    }
  }

  /** A key pressed d times has max(d - 1, 0) samples and is reported exactly
      when it was pressed at least MIN_SAMPLES + 1 times; each of its samples
      is between the reported min and max. */
  lemma ReportedKeys(events: seq<KeyEvent>, report: map<string, IntervalStats>, key: string)
    requires forall k :: k in report <==> |DownTimes(events, k)| >= MIN_SAMPLES + 1
    requires forall k :: k in report ==> report[k] == Summarize(Gaps(DownTimes(events, k)))
    ensures key in report <==> |Gaps(DownTimes(events, key))| >= MIN_SAMPLES
    ensures key in report ==> report[key].samples == |DownTimes(events, key)| - 1
    ensures key in report ==> forall i :: 0 <= i < report[key].samples ==>
      report[key].min <= Gaps(DownTimes(events, key))[i] <= report[key].max
  {
    var ts := DownTimes(events, key);
    var g := Gaps(ts);
    assert |g| == if ts == [] then 0 else |ts| - 1;
    assert key in report <==> |ts| >= MIN_SAMPLES + 1;
    if key in report {
      var st := Summarize(g);
      assert report[key] == st;
      forall i | 0 <= i < st.samples ensures st.min <= g[i] <= st.max {
      }
    }
  }
}
