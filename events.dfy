/** Fixed-width integers and the two event records of the keyboard monitor. */
module Events {

  const U8_LIMIT: int := 0x100
  const U32_LIMIT: int := 0x1_0000_0000
  const U64_LIMIT: int := 0x1_0000_0000_0000_0000
  const U64_MAX: int := U64_LIMIT - 1

  type u8 = x: int | 0 <= x < U8_LIMIT
  type u32 = x: int | 0 <= x < U32_LIMIT
  type u64 = x: int | 0 <= x < U64_LIMIT

  datatype Option<T> = None | Some(value: T)

  /** Capacity of the capture ring buffer, a power of two. */
  const RING_BUFFER_SIZE: nat := 65536

  /** Action codes stored by the hook: 0 is a press, 1 a release, 2 "not recorded". */
  const ACTION_DOWN: u8 := 0
  const ACTION_UP: u8 := 1
  const ACTION_OTHER: u8 := 2

  /** What the hook stores per key transition: the cycle-counter reading, the
      virtual-key code and the action code. */
  datatype RawEvent = RawEvent(tsc: u64, vkCode: u32, action: u8)

  /** The value of a slot that was never written: tick 0 is the sentinel. */
  const EMPTY_SLOT: RawEvent := RawEvent(0, 0, 0)

  /** Direction of a reconstructed event; Label is the text written for it. */
  datatype Direction = Down | Up {
    function Label(): string
    {
      match this
      case Down => "down"
      case Up => "up"
    }
  }

  /** Comparing the label with "down" is comparing the direction with Down. */
  lemma DownLabel(d: Direction)
    ensures d.Label() == "down" <==> d == Down
    ensures d.Label() == "up" <==> d == Up
  {
    assert "up" != "down" by { assert |"up"| != |"down"|; }
  }

  /** One reconstructed event; times are microseconds (see Reconstruction.ToMicros). */
  datatype KeyEvent = KeyEvent(
    eventId: nat,
    timestampUs: u64,
    keyCode: u32,
    keyName: string,
    action: Direction,
    intervalUs: u64)

  /** Non-decreasing in tick value. */
  predicate SortedByTsc(s: seq<RawEvent>)
  {
    forall i, j :: 0 <= i < j < |s| ==> s[i].tsc <= s[j].tsc
  }

  /** Strictly increasing in tick value. */
  predicate StrictlyIncreasingTsc(s: seq<RawEvent>)
  {
    forall i, j :: 0 <= i < j < |s| ==> s[i].tsc < s[j].tsc
  }
}
