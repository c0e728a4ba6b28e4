/** The capture side: classifying hook messages and the ring buffer the hook
    writes into. One producer writes; the snapshot is taken after it stopped. */
module Capture {
  import opened Events
  import opened Bits

  const WM_KEYDOWN: u32 := 0x0100
  const WM_KEYUP: u32 := 0x0101
  const WM_SYSKEYDOWN: u32 := 0x0104
  const WM_SYSKEYUP: u32 := 0x0105

  /** The action code of a hook message word. The word is truncated to its
      low 32 bits first, as the hook's cast does. */
  function ActionOf(wParam: u64): (action: u8)
    ensures action == ACTION_DOWN <==> wParam % U32_LIMIT == WM_KEYDOWN || wParam % U32_LIMIT == WM_SYSKEYDOWN
    ensures action == ACTION_UP <==> wParam % U32_LIMIT == WM_KEYUP || wParam % U32_LIMIT == WM_SYSKEYUP
    ensures action == ACTION_DOWN || action == ACTION_UP || action == ACTION_OTHER
  {
    var message := wParam % U32_LIMIT;
    if message == WM_KEYDOWN || message == WM_SYSKEYDOWN then ACTION_DOWN
    else if message == WM_KEYUP || message == WM_SYSKEYUP then ACTION_UP
    else ACTION_OTHER
  }

  /** The physical slot of logical write number `counter`: `counter & (N - 1)`.
      Because N is a power of two this is the counter modulo N. */
  function SlotIndex(counter: nat): (slot: nat)
    ensures slot < RING_BUFFER_SIZE
    ensures slot == counter % RING_BUFFER_SIZE
  {
    Pow2Of16();
    LowBitsMask(counter, 16);
    BitAnd(counter, RING_BUFFER_SIZE - 1)
  }

  /** The wrap-around branch of the snapshot: slots from `start` to the end,
      then from the beginning up to `start`. */
  function Rotation(buf: seq<RawEvent>, start: nat): (r: seq<RawEvent>)
    requires start <= |buf|
  {
    buf[start..] + buf[..start]
  }

  /** Element k of a rotation is the slot k places after `start`, cyclically. */
  lemma RotationAt(buf: seq<RawEvent>, start: nat, k: nat)
    requires start < |buf| && k < |buf|
    ensures |Rotation(buf, start)| == |buf|
    ensures Rotation(buf, start)[k] == buf[(start + k) % |buf|]
  {
    var r := Rotation(buf, start);
    if start + k < |buf| {
      ModUnique(start + k, |buf|, 0, start + k);
      assert r[k] == buf[start..][k];
    } else {
      ModUnique(start + k, |buf|, 1, start + k - |buf|);
      assert r[k] == buf[..start][k - (|buf| - start)];
    }
  }

  /** At total == N the no-wrap branch (`<=`) and the wrap-around branch
      produce the same sequence, so the boundary choice does not matter. */
  lemma WrapBoundaryAgrees(buf: seq<RawEvent>)
    requires |buf| == RING_BUFFER_SIZE
    ensures Rotation(buf, SlotIndex(RING_BUFFER_SIZE)) == buf[..RING_BUFFER_SIZE]
  {
    assert SlotIndex(RING_BUFFER_SIZE) == 0;
    assert buf[0..] == buf && buf[..0] == [];
  }

  lemma ModShift(total: nat, k: nat)
    requires total >= RING_BUFFER_SIZE && k < RING_BUFFER_SIZE
    ensures (total - RING_BUFFER_SIZE + k) % RING_BUFFER_SIZE == (total % RING_BUFFER_SIZE + k) % RING_BUFFER_SIZE
  {
    var q := total / RING_BUFFER_SIZE;
    var r := total % RING_BUFFER_SIZE;
    assert total - RING_BUFFER_SIZE + k == (q - 1) * RING_BUFFER_SIZE + (r + k);
  }

  /** Two write numbers less than N apart use different slots. */
  lemma DistinctSlots(a: nat, b: nat)
    requires a < b < a + RING_BUFFER_SIZE
    ensures a % RING_BUFFER_SIZE != b % RING_BUFFER_SIZE
  {
    var n := RING_BUFFER_SIZE;
    assert b - a == n * (b / n - a / n) + (b % n - a % n);
  }

  /** The slots hold the last min(|h|, N) events of `h`, each at its write
      number modulo N, and every slot at or beyond |h| is still the sentinel. */
  ghost predicate WindowHolds(s: seq<RawEvent>, h: seq<RawEvent>)
  {
    |s| == RING_BUFFER_SIZE &&
    (forall i :: 0 <= i < |h| && |h| - RING_BUFFER_SIZE <= i ==> s[i % RING_BUFFER_SIZE] == h[i]) &&
    (forall j :: |h| <= j < RING_BUFFER_SIZE ==> s[j] == EMPTY_SLOT)
  }

  lemma EmptyWindow(s: seq<RawEvent>)
    requires |s| == RING_BUFFER_SIZE && forall j :: 0 <= j < |s| ==> s[j] == EMPTY_SLOT
    ensures WindowHolds(s, [])
  {
  }

  /** Writing event number |h| at its slot extends the window by that event. */
  lemma WindowAfterWrite(s: seq<RawEvent>, h: seq<RawEvent>, e: RawEvent)
    requires WindowHolds(s, h)
    ensures WindowHolds(s[SlotIndex(|h|) := e], h + [e])
  {
    var s', h' := s[SlotIndex(|h|) := e], h + [e];
    forall i | 0 <= i < |h'| && |h'| - RING_BUFFER_SIZE <= i
      ensures s'[i % RING_BUFFER_SIZE] == h'[i]
    {
      if i < |h| {
        DistinctSlots(i, |h|);
      }
    }
  }

  /** What the window says about the two branches of the snapshot. */
  lemma WindowContents(s: seq<RawEvent>, h: seq<RawEvent>)
    requires WindowHolds(s, h)
    ensures |h| <= RING_BUFFER_SIZE ==> s[..|h|] == h
    ensures |h| > RING_BUFFER_SIZE ==> Rotation(s, SlotIndex(|h|)) == h[|h| - RING_BUFFER_SIZE..]
  {
    if |h| <= RING_BUFFER_SIZE {
      forall k | 0 <= k < |h| ensures s[k] == h[k] {
        assert k % RING_BUFFER_SIZE == k;
      }
    } else {
      var start := SlotIndex(|h|);
      forall k | 0 <= k < RING_BUFFER_SIZE
        ensures Rotation(s, start)[k] == h[|h| - RING_BUFFER_SIZE + k]
      {
        RotationAt(s, start, k);
        ModShift(|h|, k);
      }
    }
  }

  /** The process-wide capture buffer: N slots and the write counter. The
      ghost `history` is every event the hook recorded, in order. */
  class RingBuffer {
    const slots: array<RawEvent>
    var writeIndex: nat
    ghost var history: seq<RawEvent>

    /** The counter counts the recorded events, and the slots hold the
        window of them described by WindowHolds. */
    ghost predicate Valid()
      reads this, slots
    {
      slots.Length == RING_BUFFER_SIZE &&
      |history| == writeIndex &&
      WindowHolds(slots[..], history)
    }

    constructor ()
      ensures Valid() && fresh(slots)
      ensures writeIndex == 0 && history == []
      ensures forall j :: 0 <= j < slots.Length ==> slots[j] == EMPTY_SLOT
    {
      var a := new RawEvent[RING_BUFFER_SIZE](_ => EMPTY_SLOT);
      EmptyWindow(a[..]);
      slots := a;
      writeIndex := 0;
      history := [];
    }

    /** Claims slot `writeIndex & (N - 1)`, advances the counter by one
        and stores the event there; every other slot is untouched. */
    method Record(event: RawEvent)
      requires Valid()
      modifies this, slots
      ensures Valid()
      ensures writeIndex == old(writeIndex) + 1
      ensures history == old(history) + [event]
      ensures slots[..] == old(slots[..])[SlotIndex(old(writeIndex)) := event]
    {
      WindowAfterWrite(slots[..], history, event);
      var idx := SlotIndex(writeIndex);
      writeIndex := writeIndex + 1;
      slots[idx] := event;
      history := history + [event];
    }

    /** The hook: a non-negative hook code with a key-down or key-up message
        records one event with the given tick reading; anything else leaves
        the buffer and the counter as they were. */
    method HookProc(code: int, wParam: u64, vkCode: u32, tsc: u64)
      requires Valid()
      modifies this, slots
      ensures Valid()
      ensures code >= 0 && ActionOf(wParam) != ACTION_OTHER ==>
        writeIndex == old(writeIndex) + 1 &&
        history == old(history) + [RawEvent(tsc, vkCode, ActionOf(wParam))] &&
        slots[..] == old(slots[..])[SlotIndex(old(writeIndex)) := RawEvent(tsc, vkCode, ActionOf(wParam))]
      ensures !(code >= 0 && ActionOf(wParam) != ACTION_OTHER) ==>
        writeIndex == old(writeIndex) && history == old(history) && slots[..] == old(slots[..])
    {
      if code >= 0 {
        var action := ActionOf(wParam);
        if action < ACTION_OTHER {
          Record(RawEvent(tsc, vkCode, action));
        }
      }
    }

    /** Copies the valid part of the buffer out, oldest first: the first
        `writeIndex` slots when the buffer never wrapped, otherwise the
        rotation that starts at the oldest surviving slot. The result is
        exactly the last min(writeIndex, N) recorded events, in the order
        they were recorded. */
    method Snapshot() returns (raw: seq<RawEvent>)
      requires Valid()
      ensures |raw| == if writeIndex < RING_BUFFER_SIZE then writeIndex else RING_BUFFER_SIZE
      ensures writeIndex <= RING_BUFFER_SIZE ==> raw == slots[..writeIndex]
      ensures writeIndex > RING_BUFFER_SIZE ==> raw == Rotation(slots[..], SlotIndex(writeIndex))
      ensures raw == history[|history| - |raw|..]
    {
      WindowContents(slots[..], history);
      var total := writeIndex;
      var count := if total < RING_BUFFER_SIZE then total else RING_BUFFER_SIZE;
      if total <= RING_BUFFER_SIZE {
        raw := slots[..count];
      } else {
        var start := SlotIndex(total);
        raw := slots[start..] + slots[..start];
      }
    }
  }

  /** When the hook saw strictly increasing tick readings, the snapshot is
      already in tick order, and after a wrap its first entry is recorded
      event number total - N. */
  lemma SnapshotOfIncreasingWrites(history: seq<RawEvent>, raw: seq<RawEvent>)
    requires StrictlyIncreasingTsc(history)
    requires |raw| == if |history| < RING_BUFFER_SIZE then |history| else RING_BUFFER_SIZE
    requires raw == history[|history| - |raw|..]
    ensures StrictlyIncreasingTsc(raw)
    ensures |history| > RING_BUFFER_SIZE ==> raw[0] == history[|history| - RING_BUFFER_SIZE]
    ensures forall k :: 0 < k < |raw| ==> raw[0].tsc < raw[k].tsc
  {
    var off := |history| - |raw|;
    forall i, j | 0 <= i < j < |raw| ensures raw[i].tsc < raw[j].tsc {
      assert raw[i] == history[off + i] && raw[j] == history[off + j];
    }
  }
}
