# Wrapping counters, UTF-16 units and FRL blocks

The repository's `xdaq/include` holds three small pieces of logic on which much else rests:
the character traits of Oracle's 16-bit `UString`, the wrapping sequence and event numbers of
the Myrinet FED builder, and the FRL block stream between the front-end readout link and the
FED builder output. This project models them in Dafny and proves what they are for.

* `Bits`, `Wrappers`: `&`, `|`, `>>` digit by digit, and division facts; result types.
* `SerialNumbers`: the macros `SEQ_LT/LE/GT/GE` on `uint32_t`, related to unbounded counters,
  to RFC 1982, and to each other for all operands.
* `EventNumbers`: the 24-bit event number, its shift to the top of a word, and the destination
  table indexed by its low 10 bits.
* `SlotArray`: which array sizes can be indexed by a wrapping number, for which window.
* `Flow`: the sliding window as a state machine of two nodes and a network that loses,
  repeats and reorders messages. The window, the sizes of the map array and of the receive
  buffers, and the lifetimes of messages are parameters: the header gives the type, the macros,
  a window of 8 and the demand that it be compatible with both arrays, but not their sizes. The
  code of a flow is in `myrfb_mcp.h`, which is not in the repository, so the nodes are a
  reference implementation.
* `FlowSpec`: the same flow with counters that never wrap and no arrays; the nodes refine it.
* `FlowLimits`: the exact windows, array sizes and lifetimes for which the flow works, with
  failing runs for all others.
* `Utf16`: sections 2.1 and 2.2 of RFC 2781.
* `UtextTraits`: `utext_char_traits` as methods over one flat memory of bytes, each with the
  loop of the original. Pointers are byte addresses, so source and destination can overlap in
  any way. `memmove` and `memcpy` come from the C library and are given their usual loops. Units
  are taken to lie in memory low byte first, as are the words of `SuperFragment`; the original
  leaves this to the host.
* `Utf16Traits`: what the unit-level functions mean for code points.
* `FrlHeader`, `FrlStream`, `FrlFaults`: the header words, the collection of segments into
  events, and exactly when the segment numbers miss a lost block, or one that comes once more
  at any place.
* `FrlReblock`, `FrlPipeline`: cutting events into blocks of another size, for a whole stream
  and block by block.
* `SuperFragment`: several FEDs' fragments under one event number, taken apart again from the
  S-LINK trailers.

The four `Frl` modules after `FrlHeader` and `SuperFragment` are written from comments: the
firmware and the receiver's method bodies are not in the repository. The bad-CRC marks of an
event are put on its last segment, since the counters of the monitor read them there
(`xdaq/include/myrfb.h:513-514`); that a mark may stand in any segment of the input follows
from the receiver's flags (`xdaq/include/fedbuilder/FBO.hh:350-351`). Headers are read with the
masks of `frl_hw.h`. The receiver's class includes an older header whose size mask has 24 bits;
for that mask the results hold up to a block size of 2^24 - 1 (`OlderMaskAgreesIff`).

Some properties one might expect are false, and the exact condition is proved instead. `compare`
is called on strings of UTF-16 but does not follow code-point order: it reverses it exactly when
the first code points that differ lie on both sides of the surrogate range (`CompareAgreesIff`,
with `OrdersDisagree` as the example). The macros do not order numbers half the circle apart:
there `SEQ_LT` holds both ways (`MacroAlgebra`). A flow works only for bounded lifetimes of
messages, and an array larger than the window can still be incompatible with it: a window of 8
fails with a map array of 12 (`SafeIff`, `FlowWorksIff`, `DeclaredWindow`). And segment numbers
that start at 0 in every event do not show every loss or repetition (`LossUnnoticedIff`,
`ExtraUnnoticedIff`, `RepetitionUnnoticedIff`).

## Model

| member | source | states |
|---|---|---|
| SerialNumbers.MacrosRefineCounters | xdaq/include/myrfb.h:566-569 | for unbounded counters less than 2^32 apart, each of the four macros on the 32-bit residues agrees with the integer comparison exactly when the difference lies in [-2^31, 2^31); so all distances below 2^31 are right and no larger bound is sound |
| SerialNumbers.MacroAlgebra | xdaq/include/myrfb.h:566-569 | for all operands: GE negates LT, GT negates LE; exchanging operands turns LT into GT and LE into GE except at distance 2^31, where LT holds both ways and GT neither way |
| SerialNumbers.SeqLtIsRfc1982 | xdaq/include/myrfb.h:566 | SEQ_LT is the "less than" of section 3.2 of RFC 1982 plus the one case the RFC leaves undefined |
| SerialNumbers.OrderedIffInArc | xdaq/include/myrfb.h:566-573 | the sets of numbers on which SEQ_LT is a strict total order are exactly those inside some arc of half the circle, wherever it wraps |
| SerialNumbers.WindowOrderedIff | xdaq/include/myrfb.h:566-573 | n consecutive sequence numbers are totally ordered iff n <= 2^31 |
| SerialNumbers.EveryNumberIsOnACycle | xdaq/include/myrfb.h:566 | on the whole circle SEQ_LT is no order: every number starts a cycle of three |
| SerialNumbers.InWindowIsExact | xdaq/include/myrfb.h:566-573 | the window test with GE and LT accepts exactly the counters of the window, up to whole turns |
| SerialNumbers.ExchangedWindowTest | xdaq/include/myrfb.h:566-569 | writing the lower test as LE with exchanged operands adds exactly one wrong case, the number opposite to an empty window |
| EventNumbers.EventNumberIsMod | xdaq/include/myrfb.h:71-75 | masking with MYRFB_EVTNO_MASK is reduction modulo 2^24 |
| EventNumbers.ShiftedOrderRefinesCounters | xdaq/include/myrfb.h:71-76 | the macros on event numbers shifted by MYRFB_FRL_EVTNO_SHIFT give the order of the unbounded event counters exactly within [-2^23, 2^23) |
| EventNumbers.DestinationOfRun | xdaq/include/myrfb.h:394-411 | the table entry used for an event is that of the unwrapped counter modulo 1024, with period 1024 over the whole run and no break at the 24-bit wrap |
| EventNumbers.EveryEntryDecidesOneEvent | xdaq/include/myrfb.h:402-411 | of any 1024 consecutive events, across the wrap as well, each table entry decides exactly one |
| EventNumbers.UnbrokenIffSizeDivides | xdaq/include/myrfb.h:398-404 | a table size keeps the assignment unbroken at the wrap iff it divides 2^24 |
| SlotArray.CompatibleIff | xdaq/include/myrfb.h:571-574 | the exact condition for "compatible": n slots indexed by the wrapped number serve a window w iff w <= n when n divides 2^32, and iff w <= 2^32 mod n otherwise |
| Flow.CanSendIffRoom | xdaq/include/myrfb.h:566-573 | in every reachable state the sender's macro test holds iff fewer numbers are outstanding than the window |
| Flow.RunInv | xdaq/include/myrfb.h:556-573 | in a sound set-up (window of 1 to 2^31, compatible with both arrays, bounded lifetimes) every run keeps the agreement of both nodes' 32-bit state with the unbounded history |
| Flow.WindowIsSafe | xdaq/include/myrfb.h:556-573 | after any run of a sound set-up over a network that loses, repeats and reorders: delivery is a prefix of what was sent, no more than the window is outstanding, and the map array looked up by wrapped number agrees with an unbounded map keyed by the true counter |
| Flow.FlowCanAlwaysDrain | xdaq/include/myrfb.h:571-573 | from every state with this agreement some continuation delivers everything sent, empties the window and lets more be sent, for the lifetimes which FlowWorksIff shows to be necessary |
| FlowSpec.StepRefines | xdaq/include/myrfb.h:556-573 | in a sound set-up each step of the nodes happens under the same condition and with the same effect as in a flow of unbounded counters: an acknowledgement of any part of the window slides it there, any live packet of the window is received, the next item is delivered iff it has arrived |
| FlowSpec.FlowIsIdeal | xdaq/include/myrfb.h:556-573 | after every run from every start the 32-bit numbers are the wrapped counters of that unbounded flow after the same run, sending and delivering are possible exactly when they are there, and both arrays hold its items |
| FlowSpec.AckSlides | xdaq/include/myrfb.h:571-573 | a live acknowledgement of any part of the window slides it there and makes that much room |
| FlowSpec.PacketKept | xdaq/include/myrfb.h:571-573 | any live packet of the window is kept in its buffer, not only the next one |
| FlowLimits.SafeIff | xdaq/include/myrfb.h:556-573 | for every usable window w, all runs from all starts are safe iff w is at most the largest window of the map array and of the receive buffers, packets are delivered within 2^32 - 1 - w further items and acknowledgements within 2^32 - 1; an unusable window never sends |
| FlowLimits.PacketsLiveTooLong | xdaq/include/myrfb.h:561-573 | for any longer life of packets, from every start, a run that delivers an item which was not sent in its place |
| FlowLimits.AcksLiveTooLong | xdaq/include/myrfb.h:561-573 | for any longer life of acknowledgements, from every start, a run in which the sender gives up an item that was never acknowledged |
| FlowLimits.SlotsTooFew | xdaq/include/myrfb.h:571-574 | for any window beyond the largest of the map array, a run in which the array no longer holds an outstanding item |
| FlowLimits.BuffersTooFew | xdaq/include/myrfb.h:571-574 | for any window beyond the largest of the receive buffers, a run that delivers a later item in place of an earlier one |
| FlowLimits.UsableIff | xdaq/include/myrfb.h:566-574 | from any empty window the macro test lets an item be sent iff the window is between 1 and 2^31 |
| FlowLimits.FlowWorksIff | xdaq/include/myrfb.h:556-573 | all runs are safe and can be completed iff the set-up is usable and sound and packets live for at least w - 1 further items, the rest of a full window |
| FlowLimits.DeclaredWindow | xdaq/include/myrfb.h:571-574 | the window of 8 with 8 buffers works with 8 slots for packet lives of 7 to 2^32 - 9 and acknowledgement lives up to 2^32 - 1, and never works with 12 slots |
| Utf16.DecodesIffEncoding | xdaq/include/occiCommon.h:61 | the reference encoding: a unit sequence decodes to a string iff it is the encoding of that string |
| Utf16.EncodedLength | xdaq/include/oratypes.h:205 | an encoded string has one unit per code point and one more per code point at or above U+10000 |
| UtextTraits.UnitsTileMemory | xdaq/include/oratypes.h:205 | units of two bytes lie next to each other: n units of two memories are equal iff the bytes from the first to the last are |
| UtextTraits.Compare | xdaq/include/occiCommon.h:92-99 | returns the three-way comparison at the first unit that differs, reading no unit beyond it |
| UtextTraits.CompareOne | xdaq/include/occiCommon.h:80-99 | `eq` and `lt` of two chars agree with the comparison of the strings of one char |
| UtextTraits.CompareIsTotalOrder | xdaq/include/occiCommon.h:92-99 | for every length, antisymmetric in sign and transitive, strict where one step is |
| UtextTraits.CompareZeroIff | xdaq/include/occiCommon.h:92-99 | 0 iff the strings are equal unit by unit |
| UtextTraits.CompareStable | xdaq/include/occiCommon.h:92-99 | a decided comparison stays when the strings go on; an undecided one is that of what follows |
| UtextTraits.Length | xdaq/include/occiCommon.h:101-109 | terminates on every zero-terminated buffer with the index of the first 0, the index `find` reports for 0 in any larger number of units |
| UtextTraits.Find | xdaq/include/occiCommon.h:111-119 | the address of the first hit among n units, or none iff there is no hit, reading no unit beyond the hit |
| UtextTraits.AssignChar | xdaq/include/occiCommon.h:74-78 | the unit becomes the character and no other byte changes |
| UtextTraits.Assign | xdaq/include/occiCommon.h:135-141 | all n units become the character, nothing else changes, the destination is returned |
| UtextTraits.Move | xdaq/include/occiCommon.h:121-126 | for every overlap: the destination gets the units the source had, nothing else changes, the destination is returned |
| UtextTraits.MoveIsUnitAssignment | xdaq/include/occiCommon.h:121-126 | moving n * sizeof(char_type) bytes is the simultaneous assignment of n units in the array of units |
| UtextTraits.MovedUnits | xdaq/include/occiCommon.h:92-126 | `compare` of the moved units with the old source is 0, at any alignment and overlap |
| UtextTraits.Copy | xdaq/include/occiCommon.h:128-133 | on disjoint ranges the same memory as after `move`, and `compare` of the two ranges afterwards is 0 |
| Utf16Traits.CompareIsCodePointOrder | xdaq/include/occiCommon.h:92-99 | over the shorter unit length of two encoded strings, `compare` is code-point order, negated exactly when the first code points that differ are one in U+E000-U+FFFF and one at or above U+10000 |
| Utf16Traits.CompareAgreesIff | xdaq/include/occiCommon.h:92-99 | it agrees with code-point order iff there is no such difference, and is 0 iff one string is a prefix of the other |
| Utf16Traits.OrdersDisagree | xdaq/include/occiCommon.h:92-99 | U+FFFF and U+10000 are compared against their code-point order |
| Utf16Traits.CompareInMemory | xdaq/include/occiCommon.h:92-99 | the same of the value the method returns for two strings in memory |
| Utf16Traits.FindsCodePoint | xdaq/include/occiCommon.h:111-119 | the search for a unit that is no surrogate ends at the offset of the first code point of that value if it lies within n, else nowhere, even if n cuts a pair |
| Utf16Traits.InsidePairIffLow | xdaq/include/occiCommon.h:111-119 | a hit lies inside a surrogate pair iff the unit is a low surrogate |
| Utf16Traits.FindInMemory | xdaq/include/occiCommon.h:111-119 | the same of what the method reports for a string in memory |
| Utf16Traits.LengthCountsCodePoints | xdaq/include/occiCommon.h:101-109 | the length of a terminated string is its code points before the first U+0000, those at or above U+10000 counted twice |
| Utf16Traits.BeforeNulIsAll | xdaq/include/occiCommon.h:101-109 | those code points are the whole string iff it has no U+0000 |
| Utf16Traits.LengthInMemory | xdaq/include/occiCommon.h:101-109 | the same of the value the method returns, whatever lies behind the terminator |
| FrlHeader.SegsizeFields | xdaq/include/frl_hw.h:142-147 | size and flags put into a segsize word are read back through their masks, and the word is zero only for an empty segment without flags |
| FrlHeader.EvtnoOfHeader | xdaq/include/frl_hw.h:106-140 | for any header: no event number is read iff both links are enabled with different numbers; otherwise that of link 1 if it is enabled, else that of the first word, each without its special bits |
| FrlHeader.FieldsOfHeader | xdaq/include/frl_hw.h:106-147 | for any segsize word: size and the four flags, the flush bit among them, are its binary digits |
| FrlHeader.ReadWrite | xdaq/include/frl_hw.h:106-128 | a receiver that uses the masks of this header reads from an output header the segment it was written for |
| FrlHeader.OlderMaskAgreesIff | xdaq/include/interface/shared/frl_header.h:54 | a receiver that uses the 24-bit mask of the older header reads the same size iff the size has at most 24 bits |
| FrlStream.CollectIff | xdaq/include/fedbuilder/DataChecker.hh:23-42 | the receiver's checks accept any stream, with given events, iff its blocks, flushed free blocks left aside, are the segments of exactly these events, numbered from 0, with right sizes, one event number each, the last-segment bit on the last only, and bad-CRC marks set iff some segment has them |
| FrlStream.RefusedFor | xdaq/include/myrfb.h:168-171 | whenever a stream is refused, the error reported is a fault which the first block not taken has |
| FrlFaults.LossUnnoticedIff | xdaq/include/fedbuilder/DataChecker.hh:31-32 | block j of an event is lost without an error up to the end of the next event iff it was the last, its segment number (j modulo 2^32) was 0, and either no other block of its event remains or the next event has the same number |
| FrlFaults.LostInsideEvent | xdaq/include/fedbuilder/DataChecker.hh:31-32 | a stream with a lost block that is not the last of its event is refused for the segment number, whatever follows |
| FrlFaults.LostAtEndOfStream | xdaq/include/fedbuilder/DataChecker.hh:31-32 | where no event follows, a lost last block leaves an event open, unless it was its only block |
| FrlFaults.ExtraUnnoticedIff | xdaq/include/fedbuilder/DataChecker.hh:31-32 | one more block of any origin before block i of any event is collected without an error up to the end of that event iff it is marked last, its number and that of block i are 0, and the event has not begun or has the same number |
| FrlFaults.RepetitionUnnoticedIff | xdaq/include/fedbuilder/DataChecker.hh:31-32 | block j of any earlier event, come again before block i of any later event, is collected without an error up to the end of that event iff it was the last of its event, its number and that of block i are 0, and the later event has not begun or has the same number |
| FrlFaults.ExtraAccepted | xdaq/include/fedbuilder/DataChecker.hh:31-32 | where it goes unnoticed, exactly two events are collected: one that ends with the extra block, and one of the blocks after it |
| FrlFaults.RepeatedAtEndOfStream | xdaq/include/fedbuilder/DataChecker.hh:31-32 | where no event follows, a repeated block of another number than 0 is refused, a last one makes an event of its own, any other leaves an event open |
| FrlFaults.RepeatedInsideEvent | xdaq/include/fedbuilder/DataChecker.hh:31-32 | a block that comes again before its own event is over is refused for the segment number, wherever it comes and whatever follows |
| FrlFaults.OtherEvent | xdaq/include/myrfb.h:168-171 | inside an event, a block of another event with the expected segment number is refused for the event number, whatever follows |
| FrlFaults.RefusedForItsFault | xdaq/include/myrfb.h:168-171 | after any accepted blocks a block at fault is refused, for its fault if it has one only, and whatever follows changes nothing |
| FrlFaults.SingleBlockEvents | xdaq/include/fedbuilder/DataChecker.hh:31-32 | the simplest failing inputs of the segment counter alone: an event of one block can be lost, or collected twice |
| FrlReblock.ReblockOkIff | xdaq/include/frl_hw.h:110-117 | re-blocking succeeds for exactly the sizes a header can express and the streams of whole events |
| FrlReblock.ReblockErrors | xdaq/include/frl_hw.h:110-117 | a size is refused as such iff no header can express it; otherwise the error is that of collecting the stream, or that it is incomplete iff an event is left open |
| FrlReblock.ReblockKeepsEvents | xdaq/include/frl_hw.h:110-117 | a receiver of the output collects the same events, and the output is a segmentation of each into the new size: contiguous numbers, last-segment bit on the last only, no block too large |
| FrlReblock.ReblockConserves | xdaq/include/frl_hw.h:114-117 | the concatenated payload stays, and each bad-CRC bit is set somewhere in the output iff it was set somewhere in the input |
| FrlReblock.OutputHeaders | xdaq/include/frl_hw.h:106-113 | source, special bits and second event number are cleared, payloads fit the size, and no segsize word is zero |
| FrlReblock.CutIsShortest | xdaq/include/frl_hw.h:114 | no segmentation of the event into blocks of that size has fewer segments |
| FrlReblock.ReblockTwice | xdaq/include/frl_hw.h:110-117 | re-blocking twice is re-blocking once to the second size |
| FrlPipeline.PipelineRefines | xdaq/include/frl_hw.h:110-117 | at every point of every stream the block-by-block form has sent what the whole-stream form would, refuses the same with the same error, and holds back at most one block |
| FrlPipeline.PipelineIsReblock | xdaq/include/frl_hw.h:110-117 | on streams of whole events the two forms send the same blocks |
| SuperFragment.MarkersOfWord | xdaq/include/interface/shared/fed_header.h:40-46 | a word is a header iff the top four bits of its second half are 5, a trailer iff they are 10, and the length is its low 24 bits |
| SuperFragment.SplitBackIff | xdaq/include/fedbuilder/DataChecker.hh:45-68 | walking back over trailers and headers succeeds with given fragments iff the words are those fragments in a row, so there is no other division |
| SuperFragment.SplitBackErrIff | xdaq/include/fedbuilder/DataChecker.hh:45-68 | an inconsistency is reported iff it is the first one seen from the end, behind it nothing but whole fragments |
| SuperFragment.CheckIff | xdaq/include/fedbuilder/DataChecker.hh:45-68 | the check of any collected event passes with given fragments iff its bytes are these fragments in a row |
| SuperFragment.CheckErrIff | xdaq/include/fedbuilder/DataChecker.hh:45-68 | otherwise the bytes are no whole words, or the fault is the first one seen from their end |
| SuperFragment.MergeOkIff | xdaq/include/myrfb.h:168-171 | fragments are merged iff all arrived under the event number of the super-fragment, with their payloads in order and their marks or'ed; others are refused for the event number |
| SuperFragment.MergeDelivers | xdaq/include/frl_hw.h:110 | the super-fragment carries the FEDs' bytes in order, marked bad iff one of them was |
| SuperFragment.SuperFragmentSurvives | xdaq/include/fedbuilder/DataChecker.hh:45-68 | whatever the block size, the receiver collects one event from the blocks of a super-fragment, and its check finds exactly the FEDs' fragments |

## Left out

- `eof`, `not_eof` and the conversions between char and int: finite and immediate.
- The wrap-around of `n * sizeof(char_type)` in `size_t`: it needs more units than an address space holds.
- Behaviour outside valid memory, and `copy` on overlapping ranges: undefined in the original.
- `basic_string` built on the traits, and the other branch of the compiler test in `occiCommon.h`: library code.
- The status word of the FRL header: no comment says what becomes of it on output.
- The order of the header's bytes: the host software swaps it before delivery.
- FrlHeader.GlobalEvtno: which link's number becomes the global one is this model's reading of the comment, as is the refusal of enabled links that disagree; `EvtnoOfHeader` states it for every header.
- The checks of event numbers across events (`currentLvl1Id_` in `FBO.hh:342`, `cnt_bad_seq_evtno` in `myrfb.h:516`): which number is expected next is not documented, so the limits in `FrlFaults` are those of the segment counter and of event numbers inside an event.
- The order in which the receiver makes its checks, where a block fails more than one: not documented.
- The contents of the destination table: `myrfb_calc_dest_table` has no body.
- Network routing, configuration and monitoring structures, states and commands of the FED builder: declarations only.
- The real concurrency of a flow and its packet formats: steps of the nodes are atomic here.
- All CAEN VME, OCI, LDAP, XA and ODCI declarations, `RefCounted`, the `Ref` and vector templates: no logic is shown, or it only wraps calls that cannot be seen.
