# HackRF sweep: a verified model

The project models the host side of a HackRF receiver that sweeps a frequency range: the library
`src/lib/hackrf/hackrf.c`, the sweep program `src/lib/hackrf/hackrf_sweep.c`, and the hexadecimal printer of
`include/common_hackrf.h`. `dafny verify dfyconfig.toml` checks all of it.

| file | what it models |
|---|---|
| `Types.dfy`, `Constants.dfy`, `Words.dfy` | result codes; shared constants; powers of two, `and`/`or` on unsigned words, little-endian bytes |
| `Binary64.dfy`, `Fractions.dfy`, `SampleRate.dfy` | rounding of binary64 in integers; lowest terms; `hackrf_set_sample_rate` |
| `BasebandFilter.dfy` | the two filter selections and `hackrf_set_sample_rate_manual` |
| `SetFreq.dfy`, `SweepCommand.dfy` | `hackrf_set_freq`; `hackrf_init_sweep` and a decoder of its request |
| `SweepGeometry.dfy`, `IfftPlacement.dfy` | which FFT bins are kept, the bands they cover, their slots in the inverse FFT |
| `SweepPlan.dfy` | the configuration part of `hackrf_sweep`, over repeated calls |
| `RxStream.dfy`, `RxTheorems.dfy`, `RxCallback.dfy` | `rx_callback` as a function of the block stream, its theorems over runs, and the code over its buffer |
| `RxSweeps.dfy`, `RxRecords.dfy` | whole sweeps: the inputs of the inverse FFTs, and the printed records |
| `Transfers.dfy` | the transfer array of a device |
| `Streaming.dfy` | a streaming session: application thread, transfer thread and completion callback, interleaved |
| `DeviceAccounting.dfy` | `hackrf_init`, `hackrf_exit` and the count of open devices |
| `HexText.dfy` | `ullx` and `parse_u32`, with `strtoul` as in section 7.22.1.4 of C11 |

Main results:

* A rate that is the nearest binary64 to a fraction p/d in lowest terms with d <= 31 is sent to the device as
  exactly p and d, with every binary64 rounding of the source modelled, whenever `1.0 + freq` is exact. Close
  below a power of two and below one hertz it may not be, and `RecoveryCondition` says for which rates recovery
  then still holds.
* The records printed while ranges are swept carry exactly the frequencies they claim; a frequency lies in one of
  them exactly when a range reports it, which each does for all of its request, and in two exactly when two ranges
  do. Over a run of any number of sweeps, the input of the k-th inverse FFT is the spectrum of the k-th sweep,
  rotated by half its length.
* What `rx_callback` prints and places, when it stops, and the inverse FFTs it writes up to there depend only on
  the blocks with a header before the first signal, however they are spread over the transfers. Afterwards it
  still writes one copy of the last input for every transfer that opens with a start block, so two such groupings
  agree in all their inverse FFTs exactly when they have as many of those; `GroupingShows` has two that differ.
* In a single-device session every transfer is in flight as long as nobody asked for an exit, whichever thread
  handles the events; the answer of `hackrf_is_streaming` does not return to TRUE within a session. A start
  succeeds exactly when no transfer is in flight at its first submission and no call fails.

Where the code does not do what its documentation or its neighbours promise, the code is modelled and a lemma
gives the exact condition: rates whose sum with one is rounded (`RecoveryCondition`), filters outside the table
(`FilterFollowsRate`), inverse FFTs written after `do_exit` (`StreamRefinement`, `GroupingIrrelevant`), labels
off the device's schedule (`WindowsFitExactly`), FFT sizes whose sample window overlaps the block header
(`WindowClearsHeader`), a sample count that doubles to zero (`SweepIsAccepted`), sub-steps dropped by the
frequency cap (`SweepCovers`), a start after a stop (`StartSucceedsExactly`, with `RestartGoesEitherWay`), a
sample callback that runs before it is set (`EarlyCallExactly`), a NULL close (`ExitSucceedsExactly`,
`NullCloseBreaksExit`), and a close that frees transfers in flight (`CloseOnlyTakes`, `CloseCanFree`).

## Model

| member | source | states |
|---|---|---|
| SampleRate.SetSampleRate | src/lib/hackrf/hackrf.c:1245-1283 | the divider is the least multiplier from 1 to 31 that passes, or 1 if none does; the rate fits 32 bits; every recoverable fraction p/d with d up to 31 comes out as p and d |
| SampleRate.RateOf | src/lib/hackrf/hackrf.c:1249-1264 | the fraction the loop sees is off by at most half a unit of the sum: one unit in the last place of the rate from 1/2 Hz on; it is exact below 2^(e+1)-1 and for a clear last bit |
| SampleRate.FractionWord | src/lib/hackrf/hackrf.c:1249-1264 | the masked word of `1.0 + freq - (int)freq` is the rate modulo one hertz |
| SampleRate.GuardMask | src/lib/hackrf/hackrf.c:1261-1266 | the mask built from a complemented 32-bit shift is bits e+4 to 51 |
| SampleRate.MaskTest | src/lib/hackrf/hackrf.c:1270-1274 | the two mask tests together hold exactly when the multiple is within the guard bits of a whole number |
| SampleRate.NoTruncation | src/lib/hackrf/hackrf.c:1279 | the cast to 32 bits loses nothing for any divider up to 31 |
| SampleRate.WholeHzIs | src/lib/hackrf/hackrf.c:1279 | rounding the product and the sum and truncating yields the whole number the multiple is close to |
| SampleRate.EarlierMiss | src/lib/hackrf/hackrf.c:1270-1274 | no multiplier below the denominator of a fraction in lowest terms passes |
| SampleRate.RecoveryCondition | src/lib/hackrf/hackrf.c:1245-1283 | for every such fraction with d up to 31: recovered if and only if its d-th multiple, moved by the rounding of `1.0 + freq`, stays inside the guard bits |
| SampleRate.ExactRecovery | src/lib/hackrf/hackrf.c:1245-1283 | recovered whenever `1.0 + freq` is exact, and from 1/2 Hz on whenever d is at most 10 |
| SampleRate.RecoveryFailsNearPowerOfTwo | src/lib/hackrf/hackrf.c:1249 | 260046818/31 Hz is a rate that is not recovered |
| SampleRate.DividerSound | src/lib/hackrf/hackrf.c:1266-1280 | for every rate: error at most 2^(e-48) Hz when a multiplier passes (plus the drift), at most half a hertz otherwise; a whole rate keeps divider 1 |
| BasebandFilter.ComputeBasebandFilterBw | src/lib/hackrf/hackrf.c:1809-1829 | the widest entry within the argument inside the table's range, the first below it, 0 above it |
| BasebandFilter.ComputeBasebandFilterBwRoundDownLt | src/lib/hackrf/hackrf.c:1789-1806 | the widest entry below the argument, or the first |
| BasebandFilter.FilterExactlyWhen | src/lib/hackrf/hackrf.c:1809-1829 | the selection is the widest entry within the argument if and only if the argument is in the table's range |
| BasebandFilter.SelectionsDiffer | src/lib/hackrf/hackrf.c:1789-1829 | the two selections differ exactly at the entries after the first and above the table |
| BasebandFilter.SetSampleRateManual | src/lib/hackrf/hackrf.c:1206-1237 | which requests are sent, with which filter in the two request words, and the result, for every result of the transfers |
| BasebandFilter.FilterFollowsRate | src/lib/hackrf/hackrf.c:1234-1244 | the documented choice, the widest filter within 75% of the rate, is made if and only if 75% of the rate is in the table's range |
| Binary64.TruncatedQuotient | src/lib/hackrf/hackrf.c:1235 | truncating the rounded binary64 quotient gives the floor of the exact one |
| BasebandFilter.Max2837Bandwidths | src/lib/hackrf/hackrf.c:103-121 | its sixteen bandwidths |
| BasebandFilter.Max2837IsTable | src/lib/hackrf/hackrf.c:103-121 | the filter table is strictly increasing and zero-terminated |
| SetFreq.SetFreq | src/lib/hackrf/hackrf.c:1108-1120 | the hertz word is below 10^6 and the two words name the frequency if and only if it is below 2^32 * 10^6 |
| SetFreq.FrequencySplit | src/lib/hackrf/hackrf.c:1116-1120 | the same for every 64-bit frequency, with both truncations |
| SweepCommand.InitSweep | src/lib/hackrf/hackrf.c:1869-1929 | a request is sent if and only if the arguments are acceptable, it is the encoding of the command, and each refusal has its code |
| SweepCommand.PackData | src/lib/hackrf/hackrf.c:1898-1910 | the bytes filled in place are the layout of the command |
| SweepCommand.DecodeOfEncode | src/lib/hackrf/hackrf.c:1898-1921 | the layout gives back every field of every accepted command |
| SweepCommand.EncodeOfDecode | src/lib/hackrf/hackrf.c:1898-1921 | every request the layout accepts is the encoding of its command |
| SweepCommand.EncodeInjective | src/lib/hackrf/hackrf.c:1898-1921 | two accepted commands are never sent alike |
| SweepCommand.RequestOnTheWire | src/lib/hackrf/hackrf.c:1898-1921 | the bytes of one request |
| SweepGeometry.BinLabels | src/lib/hackrf/hackrf_sweep.c:372-392 | value i of either record has the centre (i + 1/2) bins above the low end of the record's band |
| SweepGeometry.Windows | src/lib/hackrf/hackrf_sweep.c:681-689 | the windows are in bounds and disjoint; among multiples of four they are mirror images if and only if the size is an odd multiple |
| SweepGeometry.StepsLeast | src/lib/hackrf/hackrf_sweep.c:702-713 | the planned steps are the fewest that cover the range, and planning again changes nothing |
| SweepGeometry.BandsDisjoint | src/lib/hackrf/hackrf_sweep.c:372-392 | no frequency is reported by two bands of a sweep |
| SweepGeometry.ReportedExactly | src/lib/hackrf/hackrf_sweep.c:275-278 | a sweep reports exactly the planned interval without the bands of sub-steps above the cap |
| SweepGeometry.SweepCovers | src/lib/hackrf/hackrf_sweep.c:604-618 | every accepted range is covered, and the whole planned interval if and only if its last sub-step is not above the cap |
| IfftPlacement.WholeBins | src/lib/hackrf/hackrf_sweep.c:349-350 | where the exact offset is a whole number of bins, the rounded bin width and the rounded quotient do not move the nearest integer |
| IfftPlacement.OnGridIsExact | src/lib/hackrf/hackrf_sweep.c:349-350 | on the schedule the bin offset comes out exact |
| IfftPlacement.WindowsFitExactly | src/lib/hackrf/hackrf_sweep.c:351-360 | both windows are inside the array if and only if the first slot is in neither of two gaps |
| IfftPlacement.OffScheduleOverruns | src/lib/hackrf/hackrf_sweep.c:349-360 | a label off the schedule whose bins go past the end |
| IfftPlacement.HalfRotation | src/lib/hackrf/hackrf_sweep.c:348-361 | every kept bin lands in bounds, half a turn from its place in the sweep's spectrum |
| IfftPlacement.SpectralBinCentre | src/lib/hackrf/hackrf_sweep.c:348-361 | that place names the same centre frequency as the bin of the block |
| IfftPlacement.EverySlotOnce | src/lib/hackrf/hackrf_sweep.c:348-361 | every slot is hit by exactly one sub-step, window and bin of a whole sweep |
| RxCallback.HeaderOf | src/lib/hackrf/hackrf_sweep.c:231-234 | the or-ed header bytes are the little-endian frequency of the block |
| RxCallback.HeaderRoundTrip | src/lib/hackrf/hackrf_sweep.c:231-234 | assembling the header undoes the encoding of every 64-bit frequency |
| RxCallback.BlocksFillBuffer | src/lib/hackrf/hackrf_sweep.c:227-237 | sixteen blocks are the transfer buffer, byte for byte |
| RxCallback.SweepReceiver.RxCallback | src/lib/hackrf/hackrf_sweep.c:207-425 | one call changes the globals as the block-by-block run does, reads in bounds, and returns -1 without a sink; it needs only that the blocks it places have their slots in bounds |
| RxCallback.ScheduleInBounds | src/lib/hackrf/hackrf_sweep.c:348-361 | blocks labelled on the schedule always have, in whatever order they come |
| RxCallback.SweepReceiver.HandleBlock | src/lib/hackrf/hackrf_sweep.c:229-289 | on every path the cursor ends one block on, and the globals make one step |
| RxCallback.SweepReceiver.Transform | src/lib/hackrf/hackrf_sweep.c:279-289 | the FFT is taken of the last samples of the block |
| RxCallback.SweepReceiver.PrintRecords | src/lib/hackrf/hackrf_sweep.c:362-393 | two records with their bands and bins are appended |
| RxCallback.SweepReceiver.PlaceBins | src/lib/hackrf/hackrf_sweep.c:348-361 | the two windows are written to their slots, in bounds, and nothing else changes |
| RxTheorems.TransferIsFlat | src/lib/hackrf/hackrf_sweep.c:229-274 | until `do_exit` is set a call is its blocks one after the other |
| RxTheorems.AfterExit | src/lib/hackrf/hackrf_sweep.c:239-270 | a call after `do_exit` prints no record and fills no slot; it writes an inverse FFT exactly when IFFT mode meets a start block first |
| RxTheorems.FlatRunPicks | src/lib/hackrf/hackrf_sweep.c:239-278 | a run emits the picked blocks and the inverse FFTs of its stream, and stops exactly at the start block that is one too many, with the 64-bit sweep count modelled |
| RxTheorems.FrameAtStart | src/lib/hackrf/hackrf_sweep.c:239-248 | the inverse FFT written at a start block is of the blocks picked before it |
| RxTheorems.FrameCount | src/lib/hackrf/hackrf_sweep.c:239-262 | there is one for every start block after the first, up to the number of sweeps asked for |
| RxTheorems.StreamRefinement | src/lib/hackrf/hackrf_sweep.c:207-278 | for every sequence of transfers and signals, all output is determined by the stream before the first signal and the number of later transfers that open with a start block, each of which adds one copy of the last inverse FFT; records come in text mode only, slots and inverse FFTs in IFFT mode only |
| RxTheorems.StopsExactly | src/lib/hackrf/hackrf_sweep.c:250-262 | blocks stop a run if and only if they bring one start block more than the sweeps of its mode |
| RxTheorems.HeadedSame | src/lib/hackrf/hackrf_sweep.c:229-238 | what a run makes of a stream depends only on its blocks with a header |
| RxTheorems.GroupingIrrelevant | src/lib/hackrf/hackrf_sweep.c:207-278 | two groupings of one stream, up to blocks without a header, print, place and stop alike and share the inverse FFTs up to the stop; all their inverse FFTs agree if and only if they have as many late start blocks |
| RxTheorems.GroupingShows | src/lib/hackrf/hackrf_sweep.c:229-270 | three start blocks among blocks without a header, as one full transfer and as two, write different numbers of inverse FFTs |
| RxSweeps.PlacedAt | src/lib/hackrf/hackrf_sweep.c:348-361 | a block changes exactly the slots of its own sub-step |
| RxSweeps.EmittedAt | src/lib/hackrf/hackrf_sweep.c:275-361 | after any labelled sequence each slot holds the bin of the one block of its sub-step, or is unchanged |
| RxSweeps.FullSweepFrame | src/lib/hackrf/hackrf_sweep.c:239-249 | a whole sweep and the next start block write one inverse FFT, of exactly that sweep's spectrum half a turn round |
| RxSweeps.SweepFrames | src/lib/hackrf/hackrf_sweep.c:207-361 | over a run of any number of whole sweeps, in any grouping, the k-th inverse FFT is of the spectrum of the k-th sweep, for every k up to the limit |
| RxRecords.RecordsAreLabelled | src/lib/hackrf/hackrf_sweep.c:372-392 | every printed value is the FFT bin whose centre the record's band gives it |
| RxRecords.EventsPrint | src/lib/hackrf/hackrf_sweep.c:275-392 | a run in text mode prints the two records of each picked block, in their order, whatever the grouping |
| RxRecords.RangeRecordsCover | src/lib/hackrf/hackrf_sweep.c:275-392 | of the records printed while up to ten ranges are swept, some cover a frequency if and only if a range reports it, as each does all of its request; two do if and only if two ranges report it |
| RxRecords.PlannedRangesOverlap | src/lib/hackrf/hackrf_sweep.c:702-713 | two requests that lie apart and are still reported twice |
| RxRecords.SweepRecordsCover | src/lib/hackrf/hackrf_sweep.c:275-392 | of the records printed while one range is swept, one covers a frequency if and only if the sweep reports it, as it does all of the requested range, and no two cover the same |
| SweepPlan.PlannedRange | src/lib/hackrf/hackrf_sweep.c:702-713 | a range of the list, planned or not, plans to the fewest steps over its request, in 16 bits |
| SweepPlan.WindowClearsHeader | src/lib/hackrf/hackrf_sweep.c:669-687 | among accepted sizes the sample window clears the header if and only if the size is at most 8180 |
| SweepPlan.SweepState.HackrfSweep | src/lib/hackrf/hackrf_sweep.c:577-734 | over any calls: at most ten ranges, every index in bounds, exactly which calls are refused, which end at a failed start, and which ask for a sweep, with what command and what state |
| SweepPlan.SweepState.AddRange | src/lib/hackrf/hackrf_sweep.c:596-619 | a range is appended if and only if it passes the guards |
| SweepPlan.SweepState.RoundFftSize | src/lib/hackrf/hackrf_sweep.c:681-687 | the loop ends at the least odd multiple of four that is not smaller |
| SweepPlan.SweepState.PlanRanges | src/lib/hackrf/hackrf_sweep.c:702-713 | every range becomes its request with the planned high end |
| SweepPlan.ConfigIsValid | src/lib/hackrf/hackrf_sweep.c:669-713 | every accepted call leaves a configuration that the theorems about `rx_callback` cover |
| SweepPlan.SweepIsAccepted | src/lib/hackrf/hackrf_sweep.c:627-635 | the command is accepted by `hackrf_init_sweep` if and only if the sample count is not 2^31, and names twice the count if and only if that is smaller |
| Transfers.DeviceTransfers.AllocateTransfers | src/lib/hackrf/hackrf.c:183-222 | on success four distinct transfers on disjoint slices of the buffer; each failure has its code |
| Transfers.DeviceTransfers.PrepareTransfers | src/lib/hackrf/hackrf.c:224-250 | exactly the transfers before the first refused one are submitted, on the endpoint and callback asked for, and success means all |
| Transfers.DeviceTransfers.CancelTransfers | src/lib/hackrf/hackrf.c:143-160 | transfers in flight are marked and stay in flight |
| Transfers.DeviceTransfers.FreeTransfers | src/lib/hackrf/hackrf.c:162-181 | every transfer that is there is freed exactly once, also after a partial allocation, and every slot is emptied |
| Transfers.SubmitSteps | src/lib/hackrf/hackrf.c:233-245 | the submission steps of the session put the same transfers in flight as the loop |
| Transfers.RefusedStep | src/lib/hackrf/hackrf.c:238-243 | the step at the first refused transfer ends the start as the loop does |
| Streaming.Reachable | src/lib/hackrf/hackrf.c:1454-1672 | the session invariant holds in every reachable state of a single-device session, with events handled by the transfer thread or inside control transfers |
| Streaming.EventsKeepInv | src/lib/hackrf/hackrf.c:1472-1507 | every beginning and end of a callback keeps it |
| Streaming.StartKeepsInv | src/lib/hackrf/hackrf.c:1533-1568 | every step of a start keeps it |
| Streaming.StopKeepsInv | src/lib/hackrf/hackrf.c:1509-1531 | every step of a stop keeps it |
| Streaming.ThreadKeepsInv | src/lib/hackrf/hackrf.c:1454-1470 | every step of the transfer thread keeps it |
| Streaming.CallbackAnswer | src/lib/hackrf/hackrf.c:1472-1507 | a transfer is in flight again if and only if it was completed, its sample callback returned 0 and libusb took it; otherwise the session is asked to exit |
| Streaming.ThreadLoop | src/lib/hackrf/hackrf.c:1454-1470 | the transfer thread handles events again if and only if there was no error, streaming is on and no exit is requested; an error ends streaming |
| Streaming.Conservation | src/lib/hackrf/hackrf.c:1472-1507 | between callbacks, without an exit request, all transfers of a session are in flight; inside a callback all but the one being handled |
| Streaming.ThreadSafety | src/lib/hackrf/hackrf.c:1454-1593 | one transfer thread at most, at most one event-handling call begun by it after an exit request, and no sample callback before it is set unless a start was torn before |
| Streaming.EarlyCallExactly | src/lib/hackrf/hackrf.c:1544-1555 | without another start, the sample callback can run before it is set if and only if it is not set and a transfer is in flight, which takes a start that failed part-way |
| Streaming.TornStart | src/lib/hackrf/hackrf.c:1544-1555 | such a start and the early callback after it |
| Streaming.CloseLeavesThread | src/lib/hackrf/hackrf.c:1643-1672 | a close leaves the thread unjoined if and only if a session was on and both stops failed, and then reports it |
| Streaming.CloseOnlyTakes | src/lib/hackrf/hackrf.c:1643-1672 | a transfer in flight when a close frees the device was in flight, or in its callback, when it was called |
| Streaming.CloseCanFree | src/lib/hackrf/hackrf.c:162-181 | any choice of those can be, after a close without a failure and without a thread |
| Streaming.BackToTrueNeedsStart | src/lib/hackrf/hackrf.c:1570-1593 | the answer returns to TRUE only after a completed start, and a stop before it if a session was on |
| Streaming.SecondCallAgrees | src/lib/hackrf/hackrf.c:1570-1593 | for two calls read by read, among any steps: the second sees TRUE where the first does not only if a start got past its check in between, after a stop if a session was on |
| Streaming.StartSucceedsExactly | src/lib/hackrf/hackrf.c:1533-1568 | any start of any run ends in success, with a thread, if and only if no transfer is in flight at its first submission and libusb and pthread grant its calls |
| Streaming.StopEndsExactly | src/lib/hackrf/hackrf.c:1509-1531 | any stop returns the failure of its mode request or of its join, or else succeeds, and then no session and no thread is left and what is in flight is cancelled |
| Streaming.CheckExactly | src/lib/hackrf/hackrf.c:1533-1568 | a start gets to its first submission if and only if its mode request succeeds and no session is on |
| Streaming.RequestOnlyTakes | src/lib/hackrf/hackrf.c:1595-1606 | what a start finds in flight at its first submission was in flight when it was called |
| Streaming.RestartCanFail | src/lib/hackrf/hackrf.c:233-245 | called with a transfer in flight, a start is refused though no call fails, if its mode request handles no event |
| Streaming.RestartCanSucceed | src/lib/hackrf/hackrf.c:642-663 | it succeeds if its mode request handles the events of the transfers in flight |
| Streaming.RestartGoesEitherWay | src/lib/hackrf/hackrf.c:1509-1568 | after a healthy session and its stop both happen |
| Streaming.SharedContextCallsTooEarly | src/lib/hackrf/hackrf.c:1544-1555 | with a second device the callback can run before it is set, without a torn start |
| DeviceAccounting.LibHackrf.HackrfInit | src/lib/hackrf/hackrf.c:328-343 | success means that there is a context, which there is if there was one or libusb gives one |
| DeviceAccounting.LibHackrf.HackrfExit | src/lib/hackrf/hackrf.c:345-360 | succeeds, and drops the context, if and only if open devices and NULL closes cancel out in 16 bits; without NULL closes, exactly when none is open; otherwise it changes nothing |
| DeviceAccounting.LibHackrf.HackrfOpen | src/lib/hackrf/hackrf.c:513-594 | success is exactly that the device is among the open ones, nothing else is opened, the count is kept, and a failure has its code |
| DeviceAccounting.LibHackrf.HackrfClose | src/lib/hackrf/hackrf.c:1643-1672 | the device is no longer open, and the count is kept; a NULL close opens and closes nothing but counts; success is that both stops succeed, and the result of the second one comes first |
| DeviceAccounting.Counted | src/lib/hackrf/hackrf.c:561-562 | over every run the counter is the open devices less the NULL closes, in 16 bits |
| DeviceAccounting.ExitSucceedsExactly | src/lib/hackrf/hackrf.c:345-360 | exit succeeds if and only if that difference is 0 in 16 bits; without NULL closes, exactly when none is open |
| DeviceAccounting.ContextOutlivesDevices | src/lib/hackrf/hackrf.c:345-360 | in runs without NULL closes the context is live while a device is open |
| DeviceAccounting.NullCloseBreaksExit | src/lib/hackrf/hackrf.c:1650-1665 | after a NULL close, exit succeeds under an open device |
| HexText.Printer.Ullx | include/common_hackrf.h:24-40 | from the returned position to the end the buffer holds `0x` and the digits, the rest is unchanged, every write is in bounds |
| HexText.ParseU32 | src/lib/hackrf/hackrf_sweep.c:119-144 | exactly the texts made of an announced base, spaces, a sign, a prefix and digits are accepted, with the value they mean modulo 2^32 |
| HexText.HexDigitsValue | include/common_hackrf.h:31-35 | the printed digits stand for the number |
| HexText.HexIsCanonical | include/common_hackrf.h:31-35 | they are lower case and without a zero in front |
| HexText.AcceptedExactly | src/lib/hackrf/hackrf_sweep.c:136-140 | the same for the specification of the parser, in both directions |
| HexText.PrintThenParse | src/lib/hackrf/hackrf_sweep.c:119-144 | every 64-bit number printed by `ullx` is read back, modulo 2^32 |
| HexText.LongNumbersSaturate | src/lib/hackrf/hackrf_sweep.c:137-140 | numerals of 64 bits and more are accepted, whatever their base and sign, and read as 2^32 - 1 |
| HexText.DecimalsAreParsed | src/lib/hackrf/hackrf_sweep.c:136-139 | plain decimal digits are read as their value, cut to 32 bits |

## Left out

- SampleRate.SetSampleRate: rates below 1/16 Hz and from 2^27 Hz on, and negative ones, where the shift by e + 4 or a cast of the source is undefined in C.
- BasebandFilter.SetSampleRateManual: a divider of 0, which divides by zero in the source.
- RxCallback.SweepReceiver.RxCallback: calls in which a block is placed out of bounds or below the start frequency, which is undefined in C; `WindowsFitExactly` says which labels those are.
- RxCallback.SweepReceiver.PrintRecords: values of bins are opaque terms over the sample window; dates, decimal formatting and the unfinished second print of the first window after each record are not modelled.
- RxSweeps.FullSweepFrame: the order of the device's schedule is free, but one block per tuning is assumed (8192 samples); the firmware is not part of this model.
- RxTheorems.StreamRefinement: a signal sets `do_exit` between two calls, not between two blocks of a call.
- Streaming.Reachable: the session is a state machine over values, with sequentially consistent accesses; the memory freed by a close is not modelled, and neither are events handled inside libusb calls other than control transfers and the event loop of the transfer thread.
- DeviceAccounting.LibHackrf.HackrfClose: the results of the two stops are parameters; the stops themselves are steps of `Streaming`.
- DeviceAccounting.LibHackrf.HackrfOpen: finding and configuring the USB device is a parameter; opening before `hackrf_init` is excluded from the runs.
- SweepPlan.SweepState.HackrfSweep: gains, antenna and amplifier requests, FFT buffers and plans, and the waiting loop after the start.
- HexText.Printer.Ullx: `ullx` leaves no terminator after the last digit, so the round trip is about the characters, read as a terminated string.
- The sweep limit is the global that `rx_callback` reads; line 591 of hackrf_sweep.c stores the requested limit in a local of the same name.
- The output file is a flag of the receiver; in the repository it is never opened, so every call returns -1.
- FFT values, window function, logarithms, timestamps, sweep-rate statistics, the binary-mode packing and the serialisers of common_hackrf.h.
- Register, flash, gain, Operacake and board requests of hackrf.c: one range check around a foreign call each.
- The plugin, client, administration and service files: sockets, console input and stubs.
