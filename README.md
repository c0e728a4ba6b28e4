# sorahk-perf-monitor: capture and reconstruction core

`sorahk-perf-monitor` is a Windows keyboard-latency recorder. A low-level
keyboard hook stamps every key-down and key-up with a cycle-counter reading
and writes it into a 65536-slot ring buffer indexed by a running counter.
When recording stops, the program does the following:

- copies the valid part of the buffer out, oldest first;
- sorts it by tick and drops entries whose tick is 0 (every copied slot was
  written, so this removes only writes that read a zero tick);
- turns the entries into numbered events with microsecond timestamps,
  intervals, key names and "down"/"up" labels, counting presses and releases;
- for sessions of at least ten events, reports per-key press-to-press
  intervals.

The Dafny model follows that structure:

| module | file | models |
|---|---|---|
| `Events` | events.dfy | `RawEvent`, `KeyEvent`, the fixed-width integer types, the buffer size and action codes |
| `Bits` | bits.dfy | bitwise AND on naturals; masking with 2^k - 1 is reduction modulo 2^k |
| `KeyNames` | key_names.dfy | `get_key_name` and a reader that inverts it |
| `Capture` | capture.dfy | message classification, and the ring buffer as a class: an `array` of slots, the write counter, the hook, the snapshot |
| `Ordering` | ordering.dfy | `sort_unstable_by_key(tsc)` followed by `retain(tsc > 0)` |
| `Reconstruction` | reconstruction.dfy | the tick-to-microsecond conversion and the reconstruction loop |
| `Analysis` | analysis.dfy | the integer part of `generate_analysis` |
| `Monitor` | monitor.dfy | the end of `main`: outcomes, and the end-to-end property |

The ring buffer carries a ghost `history` of every event recorded so far. Its
invariant `Valid()` says two things. The slots hold the last min(|history|, N)
events, each at its write number modulo N. Every slot never written is still
the zero sentinel. The snapshot is proved to be exactly the last
min(total, N) recorded events, in recording order, in both branches and at the
`total == N` boundary. Everything after the snapshot is stated over that
history.

## Model

| member | source | states |
|---|---|---|
| Events.DownLabel | src/main.rs:303 | the text of a direction is "down" exactly for a press and "up" exactly for a release, so the analysis's string test is a test of the direction |
| KeyNames.Numeral | src/main.rs:60-61 | the decimal rendering used by `NUM{}` and `F{}` is non-empty, all digits, and has no leading zero for a positive number |
| KeyNames.NumeralRoundTrip | src/main.rs:60-61 | reading a rendered numeral back gives the number |
| KeyNames.Hex2 | src/main.rs:79 | `{:02X}` gives at least two upper-case hexadecimal digits |
| KeyNames.Hex2RoundTrip | src/main.rs:79 | the `{:02X}` digits read back as the code |
| KeyNames.KeyName | src/main.rs:56-81 | no contract of its own; KeyNameRoundTrip, KeyNameInjective, SingleCharacterNames, NumberedNames and FallbackNameSpellsCode give its mapping |
| KeyNames.CharacterNameRoundTrip | src/main.rs:58-59 | a letter or digit code reads back from its one-character name |
| KeyNames.KeypadNameRoundTrip | src/main.rs:60 | a keypad code reads back from its NUMd name |
| KeyNames.FunctionKeyNameRoundTrip | src/main.rs:61 | a function-key code reads back from its Fn name, n at most 24 |
| KeyNames.FixedName | src/main.rs:62-78 | no contract of its own; FixedNameRoundTrip, FixedNameShape and FixedNameReadBack show its seventeen names are distinct, read back to their codes, and differ from every generated name |
| KeyNames.FixedNameRoundTrip | src/main.rs:62-78 | the seventeen fixed names are inverted by the reverse table |
| KeyNames.FixedNameShape | src/main.rs:62-78 | no fixed name has fewer than three characters or begins with F, N or V, so none collides with a generated name |
| KeyNames.FixedNameReadBack | src/main.rs:62-78 | a fixed-name code reads back from its name |
| KeyNames.FallbackNameRoundTrip | src/main.rs:79 | any other code reads back from its VK_ name |
| KeyNames.KeyNameRoundTrip | src/main.rs:56-80 | for every u32 code, reading its name back gives the code: the lookup is total and loses nothing |
| KeyNames.KeyNameInjective | src/main.rs:56-80 | distinct codes get distinct names, so grouping by name is grouping by key |
| KeyNames.SingleCharacterNames | src/main.rs:58-59 | a name has one character exactly for letter and digit codes, and that character is the code |
| KeyNames.FallbackNameSpellsCode | src/main.rs:79 | an unnamed code is shown as "VK_" and at least two hexadecimal digits whose value is the code |
| KeyNames.NumberedNames | src/main.rs:60-61 | keypad codes are "NUM" and the digit code - 0x60; function keys are "F" and the number code - 0x6F |
| Bits.BitAnd | src/main.rs:102 | no contract of its own; LowBitsMask shows that AND with 2^k - 1 is reduction modulo 2^k, which SlotIndex uses for the masks at lines 102 and 272 |
| Bits.LowBitsMask | src/main.rs:102 | x & (2^k - 1) equals x mod 2^k |
| Capture.ActionOf | src/main.rs:93-97 | the low 32 bits of the message word give action 0 exactly for WM_KEYDOWN/WM_SYSKEYDOWN, 1 exactly for WM_KEYUP/WM_SYSKEYUP, and 2 otherwise |
| Capture.SlotIndex | src/main.rs:101-102 | `counter & (N - 1)` is counter mod N and a valid slot |
| Capture.DistinctSlots | src/main.rs:101-102 | two writes fewer than N apart use different slots |
| Capture.WindowAfterWrite | src/main.rs:101-112 | writing event number h at slot h mod N keeps the slots equal to the last N events |
| Capture.RingBuffer.constructor | src/main.rs:44-51 | a new buffer holds N zero slots and a zero counter |
| Capture.RingBuffer.Record | src/main.rs:100-112 | stores the event at slot `counter & (N - 1)`, advances the counter by exactly one, changes no other slot, and keeps the window invariant |
| Capture.RingBuffer.HookProc | src/main.rs:87-115 | a non-negative code with a down or up message records exactly one event; any other call changes neither slots nor counter |
| Capture.Rotation | src/main.rs:272-274 | no contract of its own; RotationAt gives element k as slot (start + k) mod N, and WindowContents and Snapshot show the rotation is the history's last N events |
| Capture.RotationAt | src/main.rs:272-274 | element k of the rotation at s is slot (s + k) mod N |
| Capture.WrapBoundaryAgrees | src/main.rs:269-275 | at total == N the no-wrap branch and the rotation at total & (N - 1) give the same sequence |
| Capture.WindowContents | src/main.rs:265-276 | without a wrap the first total slots are the history; after a wrap the rotation is its last N events |
| Capture.RingBuffer.Snapshot | src/main.rs:265-276 | the snapshot has min(total, N) entries: the slot prefix without a wrap, the rotation at total & (N - 1) after one, and in both cases exactly the last min(total, N) recorded events in order |
| Capture.SnapshotOfIncreasingWrites | src/main.rs:269-275 | with strictly increasing write ticks the snapshot is strictly increasing, and after a wrap it starts with write number total - N |
| Ordering.Insert | src/main.rs:278 | inserting into a tick-sorted sequence keeps it sorted and adds exactly that entry |
| Ordering.SortByTsc | src/main.rs:278 | the sort result is tick-sorted and a permutation of its input |
| Ordering.RetainNonzero | src/main.rs:279 | the retained entries all have non-zero ticks, and each entry with a non-zero tick survives as often as it occurred |
| Ordering.LeadingZeros | src/main.rs:278-279 | counts the run of zero ticks at the front |
| Ordering.RetainOfSortedDropsPrefix | src/main.rs:278-279 | on sorted input, retain removes exactly the leading run of zero ticks |
| Ordering.AllPositiveRetained | src/main.rs:279 | retain removes nothing from any sequence in which no tick is zero |
| Ordering.SortThenRetain | src/main.rs:278-279 | sort then retain yields a tick-sorted sequence of positive ticks that is a permutation of the snapshot's non-zero entries |
| Ordering.SortedPermutationUnique | src/main.rs:278 | a tick-sorted permutation of a strictly increasing sequence is that sequence, so the unstable sort cannot reorder distinct ticks |
| Reconstruction.ToMicros | src/main.rs:292-296 | no contract of its own; ToMicrosFloor gives floor(ticks·10^6/freq) saturated at u64::MAX, ToMicrosMonotone and ToMicrosAtOneMegahertz its monotonicity and the 1 MHz identity |
| Reconstruction.ToMicrosFloor | src/main.rs:292-296 | at a positive frequency the conversion is the floor of ticks * 10^6 / freq, or u64::MAX once that exceeds the u64 range |
| Reconstruction.ToMicrosMonotone | src/main.rs:292-296 | more ticks never give fewer microseconds, at any frequency |
| Reconstruction.ToMicrosAtOneMegahertz | src/main.rs:292-296 | at 10^6 ticks per second the conversion is the identity |
| Reconstruction.ExtendReconstruction | src/main.rs:298-314 | pushing the record for the next entry keeps every earlier record correct |
| Reconstruction.Reconstruct | src/main.rs:286-315 | one record per entry: id i, time since the first tick, time since the previous tick (0 for the first), the code, its name, down iff action 0; the press count is the number of action-0 entries and presses + releases is the number of records |
| Reconstruction.RecordTimes | src/main.rs:295-296 | the timestamp and interval of record i |
| Reconstruction.TimestampsNonDecreasing | src/main.rs:286-315 | the first record has timestamp and interval 0, timestamps never decrease, and no interval exceeds its timestamp |
| Reconstruction.TimestampIsSumOfIntervals | src/main.rs:295-296 | at one tick per microsecond each timestamp is the sum of the intervals up to it |
| Reconstruction.PressesAreDownRecords | src/main.rs:303-311 | the press count equals the number of "down" records, and a record is "down" exactly when its raw action is 0 |
| Reconstruction.IntervalDerivationExample | src/main.rs:294-305 | ticks 100, 150, 225 at 1 MHz give timestamps 0, 50, 125 and intervals 0, 50, 75 |
| Analysis.SaturatingSub | src/main.rs:375 | `saturating_sub` is the difference when it is non-negative and 0 otherwise |
| Analysis.Gaps | src/main.rs:374-376 | sample i is the saturating gap between press i + 1 and press i; there are max(d - 1, 0) of them |
| Analysis.LastDownAfterPress | src/main.rs:379 | after a press the last-down map holds the latest press time of every key pressed so far |
| Analysis.SampleKeysAfterPress | src/main.rs:374-376 | after a press the keys with samples are exactly the keys pressed at least twice |
| Analysis.AfterPress | src/main.rs:374-377 | no contract of its own; SampleKeysAfterPress and SamplesAfterPress show it appends the next gap for a key already pressed and changes nothing else |
| Analysis.SamplesAfterPress | src/main.rs:374-377 | after a press the samples of each key are the gaps between its press times |
| Analysis.TracksPress | src/main.rs:371-380 | a "down" record keeps both maps in step with the press times of the records seen |
| Analysis.TracksOther | src/main.rs:370-371 | a record that is not "down" changes no press times, so both maps stay correct |
| Analysis.CollectIntervals | src/main.rs:367-381 | a key has samples exactly when it was pressed at least twice, and its samples are the successive gaps between its press times |
| Analysis.MinMaxFold | src/main.rs:395-399 | the fold's min is at most and its max at least every value, and each is the seed or one of the values |
| Analysis.Summarize | src/main.rs:387-399 | the summary counts the samples; its min and max bound every sample and occur among them |
| Analysis.Sum | src/main.rs:392 | no contract of its own; SumBounds bounds it by count·min and count·max, and GapsOfOrderedTimes shows the gaps sum to the span of the press times |
| Analysis.SumBounds | src/main.rs:392-399 | the sum lies between count * min and count * max |
| Analysis.GenerateAnalysis | src/main.rs:367-399 | a key is reported exactly when it was pressed at least six times (five samples), with the summary of exactly its samples |
| Analysis.ReportedKeys | src/main.rs:387-388 | a key is reported exactly when it has at least five samples, it has one fewer sample than presses, and min and max bound every sample |
| Analysis.DownTimesOrdered | src/main.rs:370-380 | on non-decreasing timestamps each key's press times are non-decreasing |
| Analysis.GapsOfOrderedTimes | src/main.rs:374-392 | on ordered press times no gap saturates and the gaps sum to the span from first to last press, so the u64 sum cannot overflow |
| Monitor.SurvivingWrites | src/main.rs:265 | the last min(total, N) recorded events |
| Monitor.ValidEntries | src/main.rs:278-279 | no contract of its own; ValidEntriesSorted, ValidEntriesCount and ValidEntriesOfIncreasingWrites give its order, its length and its value under increasing writes |
| Monitor.ValidEntriesSorted | src/main.rs:278-279 | the entries handed to reconstruction are tick-sorted |
| Monitor.ValidSnapshot | src/main.rs:265-279 | the snapshot after sort and retain is the sorted, non-zero part of the surviving writes |
| Monitor.Process | src/main.rs:257-360 | "no events" exactly when nothing was written; "no valid events" exactly when nothing survives the filter; otherwise the reconstruction of the valid entries with their counts, and the per-key report exactly when there are at least ten events |
| Monitor.RetainCount | src/main.rs:279 | retain removes exactly the zero-tick entries |
| Monitor.ValidEntriesCount | src/main.rs:265-279 | the number of events is the number of surviving writes less those carrying a zero tick |
| Monitor.ValidEntriesOfIncreasingWrites | src/main.rs:265-279 | with strictly increasing positive ticks, sort and retain leave the surviving writes unchanged |
| Monitor.ReconstructionOfSuffix | src/main.rs:294-305 | a reconstruction of the surviving writes, read back in terms of the full history |
| Monitor.EndToEnd | src/main.rs:265-315 | with strictly increasing positive ticks there are min(total, N) events, and event i is write total - min(total, N) + i: its code, its direction, and its time since the oldest surviving write |

## Left out

- The Windows hook installation and removal, `CallNextHookEx`, the message pump, ESC polling and the 1 ms sleep loop are OS I/O. The hook is modelled as `HookProc` over an already-decoded code, message word, key code and tick reading.
- The raw-pointer read of `KBDLLHOOKSTRUCT` from `l_param` is a foreign payload. Its `vkCode` is a parameter.
- The atomics and memory orderings (`fetch_add`, `load(Acquire)`, `write_volatile`) are left out. One producer and one later consumer are modelled sequentially.
- `_rdtsc` and the QPC-based calibration are hardware counters and float division. The tick reading and the frequency are parameters.
- Capture.RingBuffer.Record: the counter is an unbounded `nat`. The wrap of the 64-bit counter after 2^64 writes is not modelled, because it is out of reach in practice.
- Reconstruction.ToMicrosFloor: the conversion is exact integer floor division with saturation at u64::MAX. This replaces the double-precision product of `tsc_to_us` and the tick delta, whose rounding can differ by one microsecond. At frequency 0, `ToMicros` follows the float behaviour: an infinite scale factor makes any non-zero delta saturate, and a zero delta gives NaN, which casts to 0. The truncation of the calibrated frequency to u64 happens before the model starts.
- Reconstruction.TimestampIsSumOfIntervals: it is stated only at one tick per microsecond. At other frequencies each interval is rounded down separately, so the sum of intervals can be less than the timestamp.
- The total duration, the events-per-second rate, the average, the variance, the standard deviation and the percentage bands are floating point. Analysis.IntervalStats keeps the integer sum, min and max they are computed from.
- CSV output, every `println!` report, `parse_max_events` and the help text are I/O and process exit.
- The max-events check belongs to the recording loop, which is OS I/O.
- Ordering.SortByTsc: `sort_unstable_by_key` may order entries with equal ticks in any way; the model fixes one such order. SortedPermutationUnique shows the choice is immaterial when ticks are distinct.
- The snapshot, sort and retain work on `Vec` values in place. Here they are functions on sequences. The ring buffer itself stays an `array` updated in place.
- The u64 `sum` in the analysis is a `nat`. Analysis.GapsOfOrderedTimes shows it equals the span of the press times on ordered input, so it cannot overflow there.
- The press and release counters are u64 in the source and `nat` here. There are at most N events, so they cannot overflow.
- The code sorts, then retains the non-zero ticks. Ordering.SortThenRetain shows the result is the sorted non-zero entries, which is also what filtering before sorting would give.
- Per-key analysis is keyed by the key name, as the code does it. KeyNameInjective shows this is the same as keying by code.
