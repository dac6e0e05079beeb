# WireTAP: a model of its protocol and checksum core

WireTAP reads buses. Its core turns streams of bytes into messages, works out which checksum a link
uses, encodes register writes, and measures a link with a test protocol. This project models the byte
and integer computations behind that in Dafny and proves what they promise, for every input.

Six components, each in a few modules. A module that models code holds the operations in the form the
code has: pure functions where the code is an expression, methods with loops where it updates variables,
classes where an object's methods update its fields. A `...Theorems` or property-named module beside it
holds what is proved. Every state-changing method is proved equal to a function of the old state, and the
theorems are about that function.

| Component | Operations | Theorems |
|---|---|---|
| CRC algebra and the checksum solver | `Crc`, `ModbusCrc`, `Algorithms`, `Frame`, `Solve`, `Collapse`, `Sweep`, `Hamming`, `Sampling` | `LinearFold`, `CrcAlgebra`, `BitStrings`, `CrcDivision`, `CheckValues`, `BurstErrors`, `SolveExactness`, `SolveTheorems`, `SolveReport`, `StoredChecksum`, `AdditiveExactness`, `RangeFolding`, `ConstantSuffix`, `Collapse`, `SolveAllTheorems`, `NarrowRange`, `Sweep`, `SweepCounts`, `SamplingTheorems` |
| Modbus RTU reassembler | `RtuProtocol`, `RtuStream`, `RtuReassembler` | `RtuContents`, `RtuCleanStream`, `RtuNoisyStream`, `RtuAmbiguity`, `RtuSafety`, `RtuPolicies`, `RtuFabrication`, `RtuFrames`, `RtuTraces`, `RtuUndercount` |
| GVRET, both ends | `Dlc`, `Resync`, `Gvret`, `GvretDevice`, `GvretClient` | `GvretLayouts`, `Resync`, `GvretDevice`, `GvretClientStream`, `GvretChunking` |
| Modbus registers and decoding | `Manifest`, `Decode`, `Calendar`, `WritePlanning` | `FieldValues`, `OnTheWire`, `RegisterRoundTrip`, `ByteOrders`, `WritePlanning`, `CommandRoundTrip`, `Calendar` |
| Test Pattern | `TestPattern`, `SequenceTracking`, `Responder` | `TestPattern`, `SequenceTracking`, `SequenceGaps`, `ResponderTheorems`, `ResponderReports` |
| SLCAN | `Slcan` | `SlcanTheorems`, `SlcanLines` |

`Common`, `Numbers`, `Bits` and `Sequences` hold the shared vocabulary, `WordValues` says what bytes and words are as
numbers, and `CrcSteps` works out the checksum of given bytes. CRC and Modbus RTU bytes are bit vectors, because that
code is bit algebra; elsewhere a byte is a number below 256. The Modbus CRC is that of section 6.2.2 of "MODBUS over
Serial Line" V1.02, and the RTU layouts are those of sections 6.1 to 6.6, 6.11, 6.12 and 7 of the MODBUS Application
Protocol Specification V1.1b3.

## What turned out not to hold

The model follows the code. Where the code's own documentation says or suggests otherwise, these lemmas give the
input and the exact condition.

- **Constant bytes after a CRC's range are not absorbed.** `crates/wiretap-checksum/src/solve.rs:163-168` says a
  constant range contributes a constant that a CRC takes into its residue. That is so for bytes before the range
  (`RangeFolding.PrefixKeepsSharedResidue`) and for sums and exclusive ors at either end
  (`RangeFolding.SurroundingKeepsAdditiveAgreement`). For bytes after the range
  `RangeFolding.SuffixKeepsSharedResidueIff` says exactly when they are absorbed, and
  `ConstantSuffix.AConstantByteHidesTheCrc` gives three frames, 00 00 00, 01 00 07 and 00 00 00, and two targets that
  differ only in the middle byte: the solver finds the plain CRC-8 of the first byte for one and not for the other.
- **A run tag does not shield a responder from foreign control messages.**
  `crates/wiretap-protocol/src/testpattern.rs:135-138` says a receiver drops any framed message whose run tag is not
  its own; control messages are acted on whatever their tag. `ResponderTheorems.ForeignStopEndsTheRun` is an input,
  `ResponderTheorems.ForeignDroppedIff` the exact condition.
- **A perfect link reports duplicates after 65536 frames**, because the bitmap of seen sequence numbers is never
  cleared while the numbers wrap: `SequenceTracking.PerfectStream` says how many.
- **A write value outside its mask leaks when merged.** The effect of merged writes is that of the writes in sequence
  for values within their masks (`WritePlanning.MergeSameEffect`), which is what encoding produces
  (`CommandRoundTrip.EncodedWithin`); `WritePlanning.MergeSameEffectIff` says exactly which other values keep the
  effect.
- **Encoding is the inverse of decoding for one byte order.** `crates/wiretap-catalog/src/modbus/manifest.rs:380-385`
  calls it the inverse; it writes the most significant bit first whatever byte order the signal declares, and decoding
  reads with the declared one. `ByteOrders.ReadsBackIff` says exactly which signals read back every value, and
  `ByteOrders.AlignedDoesNotReadBack` and `ByteOrders.FieldDoesNotReadBack` give the value that the others lose.
- **A frame count is not the number of frames with bytes of the message.**
  `crates/wiretap-catalog/src/modbus_rtu_stream.rs:91-93` says it is, and that it is 1 for a byte stream or a framed
  message. It counts the frames up to the one that completed the message, from the one that completed the message
  before it if bytes were left behind that, or from the next. For every run of frames and every message of it, those
  recovered at the end included, `RtuTraces.CountIsSpanIff` says what is counted and that it is the number promised
  exactly when the message's bytes reach over as many frames as that; `RtuTraces.FirstCountIff` and
  `RtuTraces.LaterCountIff` say it of the first message and of one that follows another out of the same frame. On a
  clean stream it is the number promised (`RtuFrames.FrameCountsAreSpans`), and on every byte stream it is 1
  (`RtuFrames.ByteStreamCountsOne`). It is too high when a frame of junk comes first
  (`RtuFrames.JunkFramesAreCounted`). It is too high and then too low in `RtuUndercount.CountsTooManyAndTooFew`: the
  head of a write request and, inside it, one answer and the start of another; all of it waits, and when the second
  frame rules the write request out, the counts are 2 and 1 where the spans are 1 and 2. The comment at
  `crates/wiretap-catalog/src/modbus_rtu_stream.rs:248-249`, that bytes still buffered came from the newest frame, is
  therefore not always right. A framed message reports the frames that are pending, 1 exactly when at most one is
  (`RtuFrames.InterpretCount`); with two pending it reports 2 (`RtuUndercount.InterpretSpansWhatIsPending`).
- **What a client's bytes mean can depend on how they are cut.** `crates/wiretap-protocol/src/gvret.rs:152-153` says a
  feed returns every complete command and keeps a partial one. It also drops all that it sees before a later
  handshake. `GvretChunking.LatchedIff` says that a latched decoder reads a stream the same under every cutting
  exactly when no handshake that a scan of it finds has a command to be read between it and the one before, its own
  first byte counted in; `GvretChunking.FreshIff` says it of a fresh decoder, from its second handshake on. F1 07 E7
  E7 loses a request (`GvretChunking.ARequestLost`), and F1 00 00 00 00 00 00 01 E7 E7 a frame that ends in the first
  byte of the handshake (`GvretChunking.AFrameLost`). What is kept for the next feed never depends on the cutting
  (`GvretChunking.SameLeft`).
- **A cutting can make other messages of Modbus RTU bytes.** `crates/wiretap-catalog/src/modbus_rtu_stream.rs:292-297`
  says the first layout with a valid check is the longest. It is the longest of those that have arrived.
  `RtuAmbiguity.AlwaysReadIff` says that the messages of a link are read under every cutting exactly when none of them
  has at its head another layout that is complete in the stream and has a valid check; `RtuAmbiguity.TwofoldIsMisread`
  is a response of which a read that ends after eight bytes makes a request.
- **Correct checks do not make the two CRC policies the same.**
  `crates/wiretap-catalog/src/modbus_rtu_stream.rs:55-56` says they are identical on a stream whose checks are
  correct. Of 01 08 00 00 01 05 21 98 and 01 03 02 12 34 B5 33, both correct, the strict policy reads the second and
  the lenient one 01 05 21 98 01 03 02 12 (`RtuFabrication.PoliciesPart`). They give the same messages exactly when
  the lenient one gives none whose check disagrees (`RtuPolicies.PoliciesAgreeIff`), which is exactly when the strict
  one never gives up on a head with a complete and plausible layout (`RtuPolicies.PoliciesAgreeOnStreamIff`). They are
  the same under every cutting of a stream that has no such head anywhere (`RtuPolicies.PoliciesAgreeUncut`), and of
  clean messages with bytes between them that start nothing (`RtuFabrication.CleanPoliciesAgree`).
- **An idle responder answers two messages.** `crates/wiretap-protocol/src/testpattern.rs:53-54` says a hello is the
  only one it answers; a status request is answered as well. `ResponderTheorems.IdleAnswersStatus` is the input,
  `ResponderTheorems.IdleAnswersIff` the exact condition.
- **The GVRET frame encoder pads.** `crates/wiretap-protocol/src/slcan.rs:233-236` says it never does. `Gvret.PadsIff`
  says exactly when zeros follow the payload, `Gvret.NinePads` gives nine bytes that go out as twelve.
- **The widest range is the widest as written.** `crates/wiretap-checksum/src/solve.rs:561` says the lowest start, and
  the end furthest into the frame, wins; offsets are compared without resolving the negative ones.
  `NarrowRange.NarrowerReported` gives frames for which the narrower of two ranges is reported, and
  `Collapse.CollapseWidestInFrames` says that the widest is kept in frames of every length exactly when the two
  offsets are counted from the same end of the frame. Those of `crates/wiretap-checksum/src/detect.rs:152-188` always
  are.

## Model

| member | source | states |
|---|---|---|
| Crc.Crc8Parameterised | crates/wiretap-checksum/src/algorithms.rs:116-148 | the loop over bytes and bits computes the register recurrence all CRC-8 theorems are about; `CrcDivision.Crc8IsRemainder` and `CrcDivision.Crc8Reflected` say what value that is |
| Crc.Crc16Parameterised | crates/wiretap-checksum/src/algorithms.rs:158-204 | the same for CRC-16, with input and output reflection; `CrcDivision.Crc16IsRemainder` and the mirror laws say what value that is |
| LinearFold.RegisterAffine | crates/wiretap-checksum/src/solve.rs:15-32 | any register built from an additive step and join is affine in its initial value: what a message does to it is what the message does to zero, combined with what zeros do to the initial value |
| CrcAlgebra.Crc8Affine | crates/wiretap-checksum/src/solve.rs:15-32 | CRC(m, init, xorOut) = CRC(m, 0, 0) xor CRC(zeros, init, 0) xor xorOut for every message and every parameter of a CRC-8 |
| CrcAlgebra.Crc16Affine | crates/wiretap-checksum/src/solve.rs:15-32 | the same for every CRC-16, whatever the two reflections |
| CrcDivision.Crc8IsRemainder | crates/wiretap-checksum/src/algorithms.rs:116-148 | a byte is the unreflected CRC-8 of a message exactly when, written in bits and freed of xorOut, it is the remainder by x^8 and the polynomial of the message with eight zeros behind it, its first bits met by the starting value |
| CrcDivision.Crc16IsRemainder | crates/wiretap-checksum/src/algorithms.rs:158-204 | the same for an unreflected CRC-16, by x^16 and the polynomial |
| CrcDivision.PlainCrc8IsRemainder | crates/wiretap-checksum/src/algorithms.rs:116-148 | with nothing to start from and no xorOut it is the remainder of m(x)x^8 |
| CrcDivision.PlainCrc16IsRemainder | crates/wiretap-checksum/src/algorithms.rs:158-204 | and of m(x)x^16 |
| CrcDivision.Reflect8Bits | crates/wiretap-checksum/src/algorithms.rs:94-97 | reflecting a byte writes its bits backwards |
| CrcDivision.Reflect16Bits | crates/wiretap-checksum/src/algorithms.rs:99-102 | reflecting a word does too |
| CrcDivision.Crc8Reflected | crates/wiretap-checksum/src/algorithms.rs:116-148 | a reflected CRC-8 is the mirror image of the unreflected one of the mirrored bytes, starting value and xorOut |
| CrcDivision.Crc16Reflected | crates/wiretap-checksum/src/algorithms.rs:158-204 | so is a CRC-16 reflected in and out |
| CrcDivision.Crc16ReflectedIn | crates/wiretap-checksum/src/algorithms.rs:158-204 | reflected in alone it is the unreflected one of the mirrored bytes |
| CrcDivision.Crc16ReflectedOut | crates/wiretap-checksum/src/algorithms.rs:158-204 | reflected out alone it is the mirror image of the unreflected one, xorOut put in last |
| CheckValues.PublishedValues | crates/wiretap-checksum/src/algorithms.rs:407-455 | every named CRC has its catalogue check value over "123456789"; sum and exclusive or have theirs over three bytes |
| ModbusCrc.BuildTable | crates/wiretap-checksum/src/algorithms.rs:273-291 | the 256-entry table holds, for every byte, eight divisions of that byte |
| ModbusCrc.TableStepIsDivision | crates/wiretap-checksum/src/algorithms.rs:304-308 | one lookup does to any register what eight bitwise divisions do |
| ModbusCrc.TableMatchesGeneralForm | crates/wiretap-checksum/src/algorithms.rs:304-308 | the table-driven Modbus checksum equals the parameterised CRC-16 (0x8005, 0xFFFF, 0, reflected) on every byte sequence |
| BurstErrors.ValidIffRegisterZero | crates/wiretap-checksum/src/algorithms.rs:316-322 | a message of at least four bytes checks out exactly when the register run over all of it, check included, ends at zero |
| BurstErrors.BurstDetected | crates/wiretap-checksum/src/algorithms.rs:316-322 | any change confined to sixteen consecutive bits of a valid message, of any length, makes it invalid |
| BurstErrors.AdjacentBytesDetected | crates/wiretap-checksum/src/algorithms.rs:489-495 | so does any change to one byte or to two adjacent bytes |
| BurstErrors.OddChangeDetected | crates/wiretap-checksum/src/algorithms.rs:316-322 | any change of an odd number of bits of a valid message, wherever they lie and however long it is, makes it invalid |
| Solve.FindSharedResidue | crates/wiretap-checksum/src/solve.rs:420-439 | the loop returns the residue every sample has, and nothing when two differ |
| SolveExactness.SharedResidueIff | crates/wiretap-checksum/src/solve.rs:26-38 | equal-length samples share a residue for a polynomial and reflection exactly when some init and xorOut reproduce them all |
| SolveExactness.CanonicalReproduces | crates/wiretap-checksum/src/solve.rs:37-38 | (0, K) reproduces every sample |
| SolveExactness.AlternativesReproduce | crates/wiretap-checksum/src/solve.rs:605-636 | every listed alternative reproduces every sample as well |
| SolveTheorems.FindLargestLengthGroup | crates/wiretap-checksum/src/solve.rs:592-603 | counting lengths in a map and taking its entries in any order picks the most common length, the longer on a tie |
| SolveTheorems.LargestGroup | crates/wiretap-checksum/src/solve.rs:592-603 | no length has more samples than the one picked, none as common is longer, and some sample has it |
| SolveTheorems.ScreeningLosesNothing | crates/wiretap-checksum/src/solve.rs:477-494 | testing the first few samples before all of them rejects no shape that all of them would accept |
| SolveTheorems.EveryShapeTried | crates/wiretap-checksum/src/solve.rs:467-475 | without the shortcut option every non-zero polynomial of the width is tried under every reflection of the width |
| SolveTheorems.SolveCrcSound | crates/wiretap-checksum/src/solve.rs:446-530 | every reported CRC and every alternative it lists reproduces every sample of the group; the counts of used and excluded samples add up to all samples; `StoredChecksum.SolvedIsCarried` says it of the bytes of the frames |
| SolveTheorems.SolveCrcComplete | crates/wiretap-checksum/src/solve.rs:446-530 | a tried shape that some init and xorOut reproduce the group with is reported, unless the list is full of shapes ranked no lower |
| SolveTheorems.SolveCrcDistinct | crates/wiretap-checksum/src/solve.rs:446-530 | no CRC is reported twice |
| SolveReport.SolveCrcInOrder | crates/wiretap-checksum/src/solve.rs:516-519 | no more are reported than asked for: recognised polynomials first, then the lower polynomial, then the plainer reflection |
| SolveReport.AlternativesAre | crates/wiretap-checksum/src/solve.rs:605-636 | exactly one other starting value is listed, all ones of the width, and its xorOut is the one and only that reproduces the samples with it |
| SolveReport.SolveCrcListsTheConvention | crates/wiretap-checksum/src/solve.rs:446-530 | so every CRC reported lists all ones, with an xorOut that reproduces the group |
| SolveReport.ParametersCalculate | crates/wiretap-checksum/src/algorithms.rs:223-330 | every named CRC is the parameterised one of these parameters |
| SolveReport.NamedAreTried | crates/wiretap-checksum/src/solve.rs:467-475 | every named CRC is tried, in the short search and in the exhaustive one, and counts as recognised |
| StoredChecksum.CarriedIsSolved | crates/wiretap-checksum/src/solve.rs:446-530 | three or more frames of one length whose last two bytes, as 256 times one plus the other in either order, are a CRC-16 of the rest: the solver asked for that order reports its shape, or fills the list with shapes ranked no lower |
| StoredChecksum.SolvedIsCarried | crates/wiretap-checksum/src/solve.rs:446-530 | and what it reports is, as a number in those two bytes, the CRC of the rest in every one of the frames, with each starting value listed |
| AdditiveExactness.SolveAdditiveExact | crates/wiretap-checksum/src/solve.rs:358-396 | an additive answer is given exactly when some family and offset reproduce all of at least three samples; it reproduces them, and exclusive or is preferred to sum to negated sum |
| RangeFolding.PrefixKeepsSharedResidue | crates/wiretap-checksum/src/solve.rs:894-910 | prepending the same bytes to equal-length samples never changes whether a polynomial has a shared residue |
| RangeFolding.SuffixKeepsSharedResidueIff | crates/wiretap-checksum/src/solve.rs:163-168 | appending constant bytes keeps a shared residue exactly when every difference between stored values is unmoved by that many further bytes |
| ConstantSuffix.AConstantByteHidesTheCrc | crates/wiretap-checksum/src/solve.rs:163-168 | on three frames with a constant byte between data and checksum the solver reports the plain CRC-8 over the first byte, however few answers are asked for, and not over the first two, however many |
| RangeFolding.SurroundingKeepsAdditiveAgreement | crates/wiretap-checksum/src/solve.rs:163-168 | constant bytes at either end never decide whether an additive family fits |
| Collapse.CollapseSolved | crates/wiretap-checksum/src/solve.rs:564-590 | the loop over sorted solutions, folding each into the first kept entry it matches, computes the fold the next rows are about |
| Collapse.CollapseDistinct | crates/wiretap-checksum/src/solve.rs:564-590 | one entry per position, length, byte order and family |
| Collapse.CollapseConserves | crates/wiretap-checksum/src/solve.rs:532-590 | every solution is accounted for exactly once, as an entry or as a range folded into one, and nothing else is |
| Collapse.CollapseSound | crates/wiretap-checksum/src/solve.rs:559-590 | every entry is one of the solutions, offset, residue and all, but for the ranges folded into it |
| Collapse.FoldedRangeSound | crates/wiretap-checksum/src/solve.rs:559-590 | every range folded into an entry is that of a solution of the same position, length, byte order and family |
| Collapse.CollapseComplete | crates/wiretap-checksum/src/solve.rs:559-590 | every solution has an entry of its position, length, byte order and family |
| Collapse.CollapseWidest | crates/wiretap-checksum/src/solve.rs:559-572 | no range folded into an entry starts lower than its own, or as low and ends further, offsets compared as written |
| Collapse.CollapseWidestInFrames | crates/wiretap-checksum/src/solve.rs:559-572 | a folded range never starts before its entry's in a frame of any length, and from the same start never reaches further, exactly when the offsets compared are counted from the same end |
| Collapse.NarrowerKept | crates/wiretap-checksum/src/solve.rs:559-572 | of two ranges that end one byte in and one byte from the end the first is kept, though in a frame of four bytes it ends earlier |
| SolveAllTheorems.SolveAllAccountsForEveryAnswer | crates/wiretap-checksum/src/solve.rs:543-557 | over all targets: every answer reported exactly once, under the widest range that gives it, with one entry per family and position |
| SolveAllTheorems.SolveAllSound | crates/wiretap-checksum/src/solve.rs:543-557 | every entry reported is an answer to one of the targets asked about and reproduces that target's samples; every range folded into it is that of such an answer |
| SolveAllTheorems.SolveAllComplete | crates/wiretap-checksum/src/solve.rs:543-557 | every answer to every target has an entry of its position, length, byte order and family |
| NarrowRange.NarrowerReported | crates/wiretap-checksum/src/solve.rs:543-572 | on three frames two ranges solve, and the one kept as the widest is the narrower in each of them |
| Sweep.GroupedVerdict | crates/wiretap-checksum/src/spec.rs:62-88 | calculating a group value first and fitting the frame after is fitting the frame first and calculating after |
| Sweep.SweepSpecs | crates/wiretap-checksum/src/spec.rs:46-101 | grouping by calculation, taking groups in any order and sorting at the end returns exactly the specifications that fit some frame, in their own order, each with the counts it has when evaluated alone; `StoredChecksum.VerdictIff` says which frames those are, byte by byte |
| SweepCounts.ReportedIff | crates/wiretap-checksum/src/spec.rs:29-101 | exactly the specifications that some frame is evidence about are reported, each with the number of frames that are and the number of those that agree |
| StoredChecksum.StoredNumber | crates/wiretap-checksum/src/frame.rs:87-101 | a two-byte field holds 256 times its first byte plus its second if big-endian, the other way round if not |
| StoredChecksum.StoredByte | crates/wiretap-checksum/src/frame.rs:87-101 | a one-byte field holds that byte, whichever order is asked for |
| StoredChecksum.VerdictIff | crates/wiretap-checksum/src/spec.rs:46-101 | of any frame, with anything before the bytes covered and behind the field: a specification counts it as matching exactly when the two bytes of the field, in the order the specification names, are the checksum of the bytes covered |
| StoredChecksum.ByteVerdictIff | crates/wiretap-checksum/src/spec.rs:46-101 | the same for a field of one byte |
| StoredChecksum.FrontVerdictIff | crates/wiretap-checksum/src/spec.rs:46-101 | the same for a field in front of what it covers, both counted from the front |
| StoredChecksum.TooShort | crates/wiretap-checksum/src/spec.rs:46-101 | a frame of at most two bytes gives no verdict on its last two |
| Hamming.Triangle | crates/wiretap-checksum/src/sampling.rs:24-31 | payload distance, length difference included, satisfies the triangle inequality |
| Hamming.Symmetric | crates/wiretap-checksum/src/sampling.rs:24-31 | it is symmetric |
| Hamming.ZeroIff | crates/wiretap-checksum/src/sampling.rs:24-31 | it is zero for equal payloads and no others |
| Hamming.DistanceIs | crates/wiretap-checksum/src/sampling.rs:24-31 | it is the number of bits in which the bytes both have differ, and eight for each byte one lacks |
| SamplingTheorems.StridedEvenly | crates/wiretap-checksum/src/sampling.rs:46-58 | strided samples lie at multiples of one stride, never exceed the limit, are all of the usable frames when they fit and at least half the limit when they do not |
| SamplingTheorems.StridedDistinct | crates/wiretap-checksum/src/sampling.rs:46-58 | striding distinct frames returns distinct frames |
| Sampling.Deduplicate | crates/wiretap-checksum/src/sampling.rs:61-68 | the loop with a set of seen payloads computes the deduplication the next rows are about |
| SamplingTheorems.DeduplicatedAppend | crates/wiretap-checksum/src/sampling.rs:61-68 | a further frame is kept at the end exactly when it is not empty and has not occurred before |
| SamplingTheorems.DeduplicatedDistinct | crates/wiretap-checksum/src/sampling.rs:61-68 | no payload is kept twice |
| Sampling.UpdateNearest | crates/wiretap-checksum/src/sampling.rs:98-101 | updating each distance in place against the newest choice keeps it the minimum over all choices |
| Sampling.Diverse | crates/wiretap-checksum/src/sampling.rs:76-105 | the whole selection, last maximum first, is the recursive greedy choice the next rows are about |
| SamplingTheorems.PicksDoNotGrow | crates/wiretap-checksum/src/sampling.rs:88-102 | each pick is no farther from the picks before it than the previous one was |
| SamplingTheorems.ChoicesApart | crates/wiretap-checksum/src/sampling.rs:88-102 | any two picks differ, and are at least as far apart as any pool entry is from its nearest pick |
| SamplingTheorems.SelectedCount | crates/wiretap-checksum/src/sampling.rs:88-105 | selection from a distinct pool returns exactly the smaller of limit and pool size |
| SamplingTheorems.PoolIs | crates/wiretap-checksum/src/sampling.rs:76-84 | the pool the code builds is distinct, is all distinct frames up to 2048 of them and at least 1024 past that, and starts with the first |
| SamplingTheorems.DiverseSamplesAre | crates/wiretap-checksum/src/sampling.rs:70-105 | for any frames and limit the samples are non-empty frames of the input, pairwise distinct, the first of them first, and exactly as many as the limit and the pool allow: the limit itself up to 1024 while there are that many distinct frames |
| SamplingTheorems.TwiceTheBest | crates/wiretap-checksum/src/sampling.rs:70-105 | the picks cover the pool within twice the radius of any set of at most as many payloads, from the pool or not |
| SamplingTheorems.DiverseCovers | crates/wiretap-checksum/src/sampling.rs:70-105 | if some payloads no more than the limit cover all distinct frames within a radius, the samples cover the pool within twice that, and so every frame unless striding engaged |
| RtuReassembler.ModbusRtuStream.SkipAhead | crates/wiretap-catalog/src/modbus_rtu_stream.rs:266-273 | drops exactly the bytes no message can start with |
| RtuReassembler.ModbusRtuStream.BuildMessage | crates/wiretap-catalog/src/modbus_rtu_stream.rs:343-414 | the message and the new outstanding request are those of the pairing rules: a single write takes its side from the request, a response without an address takes the request and clears it; the rows of `RtuContents` say what that is of every kind of message, byte by byte |
| RtuReassembler.ModbusRtuStream.TakeMessage | crates/wiretap-catalog/src/modbus_rtu_stream.rs:287-334 | takes, waits or gives up as the decision function says, for both policies and at the end of the stream, and touches nothing else |
| RtuReassembler.ModbusRtuStream.DrainMessages | crates/wiretap-catalog/src/modbus_rtu_stream.rs:243-262 | the loop terminates and yields the messages and state of the recursive drain |
| RtuReassembler.ModbusRtuStream.FeedBytes | crates/wiretap-catalog/src/modbus_rtu_stream.rs:179-192 | bytes in, messages out, buffer evicted past its ceiling |
| RtuReassembler.ModbusRtuStream.Feed | crates/wiretap-catalog/src/modbus_rtu_stream.rs:168-174 | the same, counting a frame |
| RtuReassembler.ModbusRtuStream.End | crates/wiretap-catalog/src/modbus_rtu_stream.rs:234-238 | at the end of the stream the buffer empties and what it still yields and its residue come back |
| RtuReassembler.ModbusRtuStream.InterpretFramed | crates/wiretap-catalog/src/modbus_rtu_stream.rs:204-224 | a framed message is labelled by the same table; buffer and frame count are untouched |
| RtuContents.ReadRequestSays | crates/wiretap-catalog/src/modbus_rtu_stream.rs:343-414 | eight sealed bytes of a read request, spelt out, are a request for the register 256 times the third byte plus the fourth and the count 256 times the fifth plus the sixth, and it is outstanding from then on |
| RtuContents.WriteRequestSays | crates/wiretap-catalog/src/modbus_rtu_stream.rs:343-414 | a sealed write-multiple request says its register, its count and the values of its bytes, two to a value and the high one first |
| RtuContents.WriteResponseSays | crates/wiretap-catalog/src/modbus_rtu_stream.rs:343-414 | a sealed write-multiple response says its register and count, and leaves what is outstanding alone |
| RtuContents.SingleWriteSays | crates/wiretap-catalog/src/modbus_rtu_stream.rs:343-414 | a sealed write of one says its register and value; it answers what is outstanding if that was one too, and is a request if not |
| RtuContents.ReadResponseSays | crates/wiretap-catalog/src/modbus_rtu_stream.rs:343-414 | a sealed read response of any length but three says its values and takes register and count from what is outstanding, which it clears |
| RtuContents.ThreeBytesAreARequest | crates/wiretap-catalog/src/modbus_rtu_stream.rs:440-447 | one with three bytes of data is taken for a request, as the comment there says |
| RtuContents.InterpretIff | crates/wiretap-catalog/src/modbus_rtu_stream.rs:204-224 | a framed message is read exactly when it has four bytes, an address of the link and a layout of its length, and its check agrees or the first such layout is plausible; it is then those bytes, flagged as the check says, and only what is outstanding changes |
| RtuContents.AddressIs | crates/wiretap-catalog/src/modbus_rtu_stream.rs:275-282 | a link of one address takes that, a link of none in particular 1 to 247 |
| RtuContents.BankIs | crates/wiretap-catalog/src/modbus/protocol.rs:52-62 | which functions are of which bank, with the exception bit or without |
| RtuContents.LayoutsAre | crates/wiretap-catalog/src/modbus_rtu_stream.rs:421-463 | which layouts a head can have, longest first, by function and byte count |
| RtuContents.ExceptionSays | crates/wiretap-catalog/src/modbus_rtu_stream.rs:343-414 | a sealed exception says its code and takes register and count from what is outstanding, which it clears |
| RtuContents.ReadExchange | crates/wiretap-catalog/src/modbus_rtu_stream.rs:343-414 | a clean read request and its response, cut anyhow: the response has the request's register and count and its own values, and nothing is outstanding after |
| RtuContents.ReadRefused | crates/wiretap-catalog/src/modbus_rtu_stream.rs:343-414 | the same with an exception for an answer |
| RtuContents.SingleWriteExchange | crates/wiretap-catalog/src/modbus_rtu_stream.rs:343-414 | a clean write of one and its echo are a request and a response to it, and nothing is outstanding after |
| RtuContents.WriteExchange | crates/wiretap-catalog/src/modbus_rtu_stream.rs:343-414 | a clean write-multiple request and its response both say register and count; the request is still outstanding after |
| RtuContents.PlausibleRead | crates/wiretap-catalog/src/modbus_rtu_stream.rs:476-511 | a read request is plausible for 1 to 2000 bits or 1 to 125 registers |
| RtuContents.PlausibleResponse | crates/wiretap-catalog/src/modbus_rtu_stream.rs:476-511 | a read response is plausible for 1 to 250 bytes, an even number if they are registers |
| RtuContents.PlausibleWrite | crates/wiretap-catalog/src/modbus_rtu_stream.rs:476-511 | a write-multiple request is plausible for 1 to 1968 coils, eight to a byte, or 1 to 123 registers, two bytes each |
| RtuContents.PlausibleException | crates/wiretap-catalog/src/modbus_rtu_stream.rs:476-511 | an exception is plausible for the codes 1 to 11 |
| RtuCleanStream.CleanStreamExact | crates/wiretap-catalog/src/modbus_rtu_stream.rs:53-56 | addressed, plausible, valid messages none of whose other layouts validates come back exactly, in order, under either policy and any cutting, the buffer empty, each labelled as interpreting it alone from the same state would label it |
| RtuCleanStream.InterpretAllFaithful | crates/wiretap-catalog/src/modbus_rtu_stream.rs:195-224 | interpreting such messages gives one message each with its own bytes, a valid check and a frame count of one |
| RtuCleanStream.DrainClean | crates/wiretap-catalog/src/modbus_rtu_stream.rs:287-334 | a drained part of such a stream yields its whole messages and keeps the rest, which it waits on |
| RtuCleanStream.ExceptionIsClean | crates/wiretap-catalog/src/modbus_rtu_stream.rs:437 | a sealed exception response is such a message, so there are some for every address |
| RtuNoisyStream.NoisyStreamExact | crates/wiretap-catalog/src/modbus_rtu_stream.rs:53-56 | the same with bytes that match no address before, between and behind the messages, from any buffer a push leaves |
| RtuNoisyStream.NoisyFaithful | crates/wiretap-catalog/src/modbus_rtu_stream.rs:195-224 | and each comes back with its own bytes, a valid check and a frame count of one |
| RtuAmbiguity.AlwaysReadIff | crates/wiretap-catalog/src/modbus_rtu_stream.rs:287-320 | messages of the link, each addressed, valid and of a plausible layout, come back under every cutting exactly when no other layout at the head of one is complete in what follows and valid |
| RtuAmbiguity.TwofoldIsMisread | crates/wiretap-catalog/src/modbus_rtu_stream.rs:292-304 | a valid response whose first eight bytes are a valid request does not come back under every cutting |
| RtuPolicies.PoliciesAgreeIff | crates/wiretap-catalog/src/modbus_rtu_stream.rs:51-56 | from any state and over any pushes of any bytes the two policies give the same messages exactly when the lenient one gives none whose check disagrees, and then end in the same state |
| RtuPolicies.PoliciesAgreeOnStreamIff | crates/wiretap-catalog/src/modbus_rtu_stream.rs:51-56 | they give the same messages exactly when the strict one, on its way through the stream, never gives up on a head at which a complete plausible layout stands |
| RtuPolicies.PoliciesAgreeUncut | crates/wiretap-catalog/src/modbus_rtu_stream.rs:51-56 | a stream no stretch of which is such a head is read the same by both under every cutting |
| RtuFabrication.CleanPoliciesAgree | crates/wiretap-catalog/src/modbus_rtu_stream.rs:51-56 | so are clean messages with bytes between them that no message can start with |
| RtuFabrication.PoliciesPart | crates/wiretap-catalog/src/modbus_rtu_stream.rs:55-56 | two valid messages of which the strict policy reads the second and the lenient one neither, but a message of the bytes between |
| RtuPolicies.PoliciesFinishAlikeIff | crates/wiretap-catalog/src/modbus_rtu_stream.rs:51-56 | so at the end of the stream, and then they leave the same bytes over |
| RtuSafety.RunAccounts | crates/wiretap-catalog/src/modbus_rtu_stream.rs:179-340 | over any pushes of any bytes: the messages are disjoint slices of the input in order, each says truly whether its check agrees and under the strict policy it does, and what is kept is the last bytes of the input |
| RtuSafety.DrainLeavesLittle | crates/wiretap-catalog/src/modbus_rtu_stream.rs:312-320 | however much arrives at most 254 bytes are left waiting |
| RtuSafety.EvictionNeverFires | crates/wiretap-catalog/src/modbus_rtu_stream.rs:103-106 | so the eviction that bounds the buffer never removes a byte |
| RtuSafety.FinishOnce | crates/wiretap-catalog/src/modbus_rtu_stream.rs:226-238 | finishing accounts for every buffered byte, what is left over has no message at its head, the buffer empties, and a second finish yields nothing |
| RtuSafety.ResidueIsNoMessage | crates/wiretap-catalog/src/modbus_rtu_stream.rs:226-238 | what is left over is not a message: no layout of its head is complete with a check that agrees, nor plausible under the lenient policy, and finishing on it again yields nothing and leaves it whole |
| RtuUndercount.ResidueHidesAMessage | crates/wiretap-catalog/src/modbus_rtu_stream.rs:229-233 | it is left over whole even where a message lies behind its head |
| RtuFrames.PushIsPushBytes | crates/wiretap-catalog/src/modbus_rtu_stream.rs:167-181 | pushing a frame yields what its bytes would, but for the first message's frame count, which is the frames pending with this one |
| RtuFrames.FrameCountsAreSpans | crates/wiretap-catalog/src/modbus_rtu_stream.rs:91-93 | on a clean stream each message's frame count is the number of frames with bytes of it |
| RtuFrames.JunkFramesAreCounted | crates/wiretap-catalog/src/modbus_rtu_stream.rs:91-93 | a frame of nothing but junk is counted in the message that follows it, whose bytes lie in one frame |
| RtuTraces.RowsAreTheRun | crates/wiretap-catalog/src/modbus_rtu_stream.rs:168-238 | for every run of frames and its end, the messages with their places: slices of the stream in order, each with the last frame that had come when it came out, and each count running from the frame that completed the one before |
| RtuTraces.CountIsSpanIff | crates/wiretap-catalog/src/modbus_rtu_stream.rs:91-93 | for every run of frames and every message, pushed or recovered at the end, what its count is, and that it equals the number of frames with bytes of it exactly when its first and last byte lie as many frames apart; for a message within the frames counted, when it starts in the first and ends in the last |
| RtuTraces.FirstCountIff | crates/wiretap-catalog/src/modbus_rtu_stream.rs:91-93 | the first message of a run counts every frame so far, rightly exactly when it starts in the first of them and ends in the last |
| RtuTraces.LaterCountIff | crates/wiretap-catalog/src/modbus_rtu_stream.rs:248-251 | a message behind another of the same frame counts one, rightly exactly when it lies within one frame |
| RtuTraces.EmptyFramesDoNothing | crates/wiretap-catalog/src/modbus_rtu_stream.rs:169-171 | empty frames change no message, no count and no span |
| RtuUndercount.CountsTooManyAndTooFew | crates/wiretap-catalog/src/modbus_rtu_stream.rs:248-251 | two frames whose two messages report 2 and 1 and lie in 1 and 2 |
| RtuUndercount.InterpretSpansWhatIsPending | crates/wiretap-catalog/src/modbus_rtu_stream.rs:91-93 | a reachable state in which a framed message reports two frames |
| RtuFrames.ByteStreamCountsOne | crates/wiretap-catalog/src/modbus_rtu_stream.rs:91-93 | on any stream fed as bytes every message reports one frame |
| RtuFrames.InterpretCount | crates/wiretap-catalog/src/modbus_rtu_stream.rs:91-93 | a message handed over framed reports the frames pending in the buffer, so one only when at most one is pending |
| Dlc.LenToDlcSmallest | crates/wiretap-protocol/src/dlc.rs:28-33 | a length gets the smallest code that carries it |
| Dlc.CodeRoundTrip | crates/wiretap-protocol/src/dlc.rs:14-33 | every CAN FD code comes back from the length it names |
| Dlc.PayloadFits | crates/wiretap-protocol/src/dlc.rs:14-40 | a frame's code carries what of its payload the frame type can carry, and reads the same as an FD code |
| Gvret.IdRoundTrip | crates/wiretap-protocol/src/gvret.rs:117-132 | an id packed with its extended flag unpacks to itself at its own width |
| Gvret.EncodeFrameInto | crates/wiretap-protocol/src/gvret.rs:338-362 | the appended bytes are the header, the payload zero-padded to its code and the checksum byte |
| Gvret.PadsIff | crates/wiretap-protocol/src/gvret.rs:349-361 | zeros go out behind a payload, which is then whole, exactly when it is a CAN FD payload below 64 bytes of a length without a code |
| Gvret.NinePads | crates/wiretap-protocol/src/gvret.rs:349-361 | nine bytes go out as twelve |
| Gvret.EncodeTransmitInto | crates/wiretap-protocol/src/gvret.rs:569-577 | the appended bytes are the header with a byte count and at most 64 payload bytes |
| GvretLayouts.CodeLengths | crates/wiretap-protocol/src/dlc.rs:14-24 | codes 0 to 8 stand for themselves; 9 to 15 for 12, 16, 20, 24, 32, 48 and 64 on CAN FD and for 8 on classic CAN |
| GvretLayouts.FrameWritten | crates/wiretap-protocol/src/gvret.rs:338-362 | a captured frame byte by byte: F1 00, the timestamp and the id word least significant byte first, sixteen times the bus plus the code, the payload with zeros up to its code, and a zero |
| GvretLayouts.ParamsWritten | crates/wiretap-protocol/src/gvret.rs:277-291 | the parameters of at most two buses byte by byte, zeros for one that is not there |
| GvretLayouts.TimebaseWritten | crates/wiretap-protocol/src/gvret.rs:299-303 | a time, least significant byte first |
| GvretLayouts.FixedWritten | crates/wiretap-protocol/src/gvret.rs:267-308 | device info, keepalive and bus count are these bytes |
| GvretLayouts.FrameReadAs | crates/wiretap-protocol/src/gvret.rs:518-551 | any bytes with F1 00 at their head, read back as numbers: waited on until the payload is there, with what is behind left alone |
| GvretLayouts.ReplyReadAs | crates/wiretap-protocol/src/gvret.rs:455-512 | any bytes with another opcode: which reply, of which length, with which numbers, or one byte passed over |
| GvretLayouts.TransmitWritten | crates/wiretap-protocol/src/gvret.rs:569-577 | a transmit request byte by byte, at most 64 bytes of payload |
| GvretLayouts.TransmitReadAs | crates/wiretap-protocol/src/gvret.rs:234-262 | any transmit request: waited on for its declared length, read with eight bytes at most |
| GvretLayouts.HandshakeIs | crates/wiretap-protocol/src/gvret.rs:212-228 | a handshake is E7 E7 |
| GvretLayouts.RequestReadAs | crates/wiretap-protocol/src/gvret.rs:187-196 | any other two bytes of a client: which request, or none |
| Gvret.DeviceReader | crates/wiretap-protocol/src/gvret.rs:463-511 | what the host end decides on the head of its buffer more bytes do not change |
| Gvret.ClientReader | crates/wiretap-protocol/src/gvret.rs:163-200 | the same for the device end's command loop |
| Resync.RunInPieces | crates/wiretap-protocol/src/gvret.rs:451-511 | a resynchronising loop whose head decision is stable reads two pieces as it reads them joined |
| Resync.RunStream | crates/wiretap-protocol/src/gvret.rs:451-511 | and reads a stream of whole messages, with any bytes between that start nothing, as those messages |
| GvretDevice.DeviceDecoder.Feed | crates/wiretap-protocol/src/gvret.rs:455-514 | the loop returns the messages of the specification and keeps a partial message however long, noise only up to 1024 bytes |
| GvretDevice.AnyChunking | crates/wiretap-protocol/src/gvret.rs:455-514 | any way of cutting any device stream gives the same messages, and buffers that agree from the first command byte on |
| GvretDevice.BufferBounded | crates/wiretap-protocol/src/gvret.rs:375-381 | whatever arrives at most 1024 bytes are kept |
| GvretLayouts.NoiseKept | crates/wiretap-protocol/src/gvret.rs:459-471 | bytes without F1 are kept while there are at most 1024 of them, and all dropped past that |
| GvretDevice.DeviceRoundTrip | crates/wiretap-protocol/src/gvret.rs:338-551 | any sequence of encoded frames and control replies, with noise between, decodes to exactly that sequence in any chunking: payloads padded to their code, four bits of bus, ids at their own width |
| GvretClient.Decoder.ScanForHandshake | crates/wiretap-protocol/src/gvret.rs:212-228 | scanning from one byte before the appended region finds what a scan of the whole buffer finds, and leaves no handshake behind |
| GvretClient.Decoder.Feed | crates/wiretap-protocol/src/gvret.rs:154-201 | the whole feed is the scan and then the command loop, once latched |
| GvretClientStream.HandshakeThenStream | crates/wiretap-protocol/src/gvret.rs:154-228 | noise, a handshake and a stream without another are read as the stream's commands in any chunking, ending latched |
| GvretClientStream.ClientRoundTrip | crates/wiretap-protocol/src/gvret.rs:569-577 | what a client writes after its handshake decodes to the ids, buses and first 8 payload bytes it wrote and the requests it made |
| GvretClientStream.ASecondHandshakeEats | crates/wiretap-protocol/src/gvret.rs:205-211 | commands read together with a later handshake are lost, read apart they are not |
| GvretChunking.LatchedIff | crates/wiretap-protocol/src/gvret.rs:154-228 | from any buffer a feed leaves, every cutting of a stream yields the same commands exactly when nothing is read of what lies between any handshake in it and the one before, its own first byte counted in, and uncut it yields those behind the last handshake |
| GvretChunking.FreshIff | crates/wiretap-protocol/src/gvret.rs:154-228 | the same of a fresh decoder and what comes behind its first handshake |
| GvretChunking.SameLeft | crates/wiretap-protocol/src/gvret.rs:154-228 | whatever the cutting, the bytes kept are those that one feed of everything would keep |
| GvretChunking.ARequestLost | crates/wiretap-protocol/src/gvret.rs:212-228 | a request is lost when read together with a handshake and read when a read ends between them |
| GvretChunking.AFrameLost | crates/wiretap-protocol/src/gvret.rs:212-228 | a frame whose last byte is the first of a handshake is lost, and read when a read ends between the handshake's two bytes |
| Decode.ExtractBits | crates/wiretap-decode/src/lib.rs:32-82 | the loops that expand, slice and accumulate bits compute the integer the next rows are about, bits past the buffer clamped away |
| Decode.ExtractIs | crates/wiretap-decode/src/lib.rs:62-81 | a big-endian field within the buffer reads as its bits, top bit first, in two's complement when signed |
| Decode.ApplyWordSwap | crates/wiretap-decode/src/lib.rs:88-109 | the in-place swap reverses the words a signal spans; words past the end read as zero and are lost |
| FieldValues.BytesReadAs | crates/wiretap-decode/src/lib.rs:32-82 | whole bytes read as their number in base 256, first byte most significant or least, in two's complement if signed |
| FieldValues.ExtractIsLittle | crates/wiretap-decode/src/lib.rs:62-81 | a little-endian field reads from its lowest bit up, each byte from its bottom bit |
| FieldValues.FieldCutShort | crates/wiretap-decode/src/lib.rs:62-81 | a field that reaches past the buffer is the unsigned number of the bits that are there, signed or not |
| FieldValues.FieldOutside | crates/wiretap-decode/src/lib.rs:62-81 | one that starts past the buffer, or has no bits, is zero |
| FieldValues.WordCountIs | crates/wiretap-decode/src/lib.rs:88-109 | a swap spans as few words as hold the bits |
| FieldValues.SwappedFrom | crates/wiretap-decode/src/lib.rs:88-109 | each byte of a swapped word is that of the word as far from the other end, zero if it lies past the buffer |
| FieldValues.NotSwapped | crates/wiretap-decode/src/lib.rs:88-109 | bytes outside those words stay |
| FieldValues.ReadsAs | crates/wiretap-catalog/src/modbus/manifest.rs:573-611 | any signal is a field of its registers' bytes in its own byte order, the device's or else big, with the words it spans turned round first if its word order, found likewise, is little and it has more than 16 bits |
| FieldValues.AlignedReadsAs | crates/wiretap-catalog/src/modbus/manifest.rs:573-611 | a signal of whole registers is its registers' number in base 65536, the first most significant or least as its own word order says, the device's or else big, and with little byte order the same of the registers with their bytes exchanged and the ends too; in two's complement if signed |
| Manifest.BytesOfRegisters | crates/wiretap-catalog/src/modbus/manifest.rs:629-636 | registers become bytes, most significant first |
| RegisterRoundTrip.WriteThenRead | crates/wiretap-catalog/src/modbus/manifest.rs:434-499 | for every supported layout, either word order, signed or not, any value in range and any register contents: the encoded writes read back as the value and no bit outside the signal changes; `OnTheWire.AlignedOnTheWire` and `OnTheWire.FieldOnTheWire` say which writes those are |
| OnTheWire.AddressOf | crates/wiretap-catalog/src/modbus/manifest.rs:282-288 | with register base 1 the address is the register number less 1, 10001, 30001 or 40001 by bank, stopping at 0; with any other base it is the number |
| OnTheWire.AlignedOnTheWire | crates/wiretap-catalog/src/modbus/manifest.rs:434-499 | a signal of whole registers goes out as whole registers at ascending addresses, whose values read in base 65536 are the raw value modulo 2^len: first register most significant if the word order, its own or else the device's, is big or not given, least significant if it is little |
| OnTheWire.FieldOnTheWire | crates/wiretap-catalog/src/modbus/manifest.rs:434-499 | a field within a register goes out as one write: the mask its bits counted from the register's top bit, the value the raw value modulo 2^len in those bits |
| OnTheWire.AddressesStop | crates/wiretap-catalog/src/modbus/manifest.rs:434-499 | register numbers wrap at 65536 before they are added, and addresses past the last stop at it |
| ByteOrders.ReadsBackIff | crates/wiretap-catalog/src/modbus/manifest.rs:380-385 | of the supported signals exactly the big-endian ones, and those in the middle of one byte, read back every value they are given |
| RegisterRoundTrip.EncodesIff | crates/wiretap-catalog/src/modbus/manifest.rs:434-499 | exactly the writable banks and supported layouts encode, and which error the others get |
| WritePlanning.MergeRegisterWrites | crates/wiretap-catalog/src/modbus/manifest.rs:506-523 | the loop over writes, each joined to the first of its address, computes the merge the next rows are about |
| WritePlanning.MergeFailsIff | crates/wiretap-catalog/src/modbus/manifest.rs:501-505 | merging fails exactly when two writes to one address have overlapping masks, and names that address |
| WritePlanning.MergeSameEffect | crates/wiretap-catalog/src/modbus/manifest.rs:501-523 | for values within their masks the merged writes do to every register file what the writes do in sequence, one write an address |
| WritePlanning.MergeSameEffectIff | crates/wiretap-catalog/src/modbus/manifest.rs:501-523 | for any values they do so exactly when no first write has a bit set that a later write to its register owns and clears |
| WritePlanning.StrayBitLeaks | crates/wiretap-catalog/src/modbus/manifest.rs:517-518 | two writes whose merge sets a bit that the writes in sequence clear |
| WritePlanning.MergeOrder | crates/wiretap-catalog/src/modbus/manifest.rs:501-505 | merged writes keep the order in which their addresses first occur |
| WritePlanning.GroupContiguous | crates/wiretap-catalog/src/modbus/manifest.rs:530-541 | the loop returns the writes cut, in order, into the longest runs of consecutive ascending addresses |
| WritePlanning.GroupingUnique | crates/wiretap-catalog/src/modbus/manifest.rs:525-541 | there is only one such way to cut them |
| CommandRoundTrip.EncodedWithin | crates/wiretap-catalog/src/modbus/manifest.rs:434-499 | no encoded write has a value bit outside its mask |
| CommandRoundTrip.CommandReadsBack | crates/wiretap-catalog/src/modbus/manifest.rs:351-541 | a command of any number of signals that merges, grouped and carried out, leaves every one of its signals reading back its value |
| Calendar.CivilFromDaysRight | crates/wiretap-decode/src/lib.rs:191-207 | the date of any day number, negative ones included, is a date of the Gregorian calendar and counting to it gives the day back |
| Calendar.CivilInverse | crates/wiretap-decode/src/lib.rs:191-207 | every date of the calendar comes back from its day number |
| Calendar.CivilSteps | crates/wiretap-decode/src/lib.rs:191-207 | day 0 is the first of January 1970 and each day's date is the next after the day before's |
| Calendar.CivilFromUnixRight | crates/wiretap-decode/src/lib.rs:191-207 | every timestamp gives a valid date and time whose seconds add up to it |
| TestPattern.FramedRoundTrip | crates/wiretap-protocol/src/testpattern.rs:315-359 | a framed message decodes to what its fields can carry, whatever padding follows it |
| ResponderReports.ReadAs | crates/wiretap-protocol/src/testpattern.rs:315-359 | any eight bytes by their first: which message, with numbers most significant byte first |
| ResponderReports.WrittenAs | crates/wiretap-protocol/src/testpattern.rs:315-329 | and the eight bytes of each message |
| ResponderReports.CommandWrittenAs | crates/wiretap-protocol/src/testpattern.rs:275-288 | the eight bytes of each control command |
| ResponderReports.CommandReadAs | crates/wiretap-protocol/src/testpattern.rs:290-312 | any control command by its fifth byte |
| ResponderReports.FlagsByte | crates/wiretap-protocol/src/testpattern.rs:159-169 | the flags byte is one for byte mode, plus twice the interface, plus sixteen times the run |
| ResponderReports.SweepPayloadIs | crates/wiretap-protocol/src/testpattern.rs:371-382 | the byte at each place of a sweep payload, and that the code's low four bits decide it |
| ResponderReports.SweepIds | crates/wiretap-protocol/src/testpattern.rs:117-126 | which ids are sweeps, of which code and in which direction |
| ResponderReports.IdsAre | crates/wiretap-protocol/src/testpattern.rs:244-254 | which id each kind of message has, and its 29-bit one |
| TestPattern.SweepBytesVary | crates/wiretap-protocol/src/testpattern.rs:366-373 | no byte of a sweep payload repeats within it, and none is the same under another code |
| TestPattern.EchoNamesItsCode | crates/wiretap-protocol/src/testpattern.rs:393-400 | an echo that matches one code's payload matches no other's |
| SequenceTracking.SequenceTracker.Record | crates/wiretap-protocol/src/testpattern.rs:453-482 | the counters, gaps and bitmap change as the tally rules say; `SequenceGaps.RunTallies` says what those come to over a run |
| SequenceTracking.SequenceTracker.MarkSeen | crates/wiretap-protocol/src/testpattern.rs:489-494 | the bitmap gains exactly that number and the answer says whether it had it |
| SequenceTracking.Conservation | crates/wiretap-protocol/src/testpattern.rs:406-482 | after any run the books balance: received, distinct and duplicate add up, drops are the gap widths, each below half the space, and the expected number follows from first, in-order and dropped; `SequenceGaps.RunTallies` says which numbers are dropped and which are late |
| SequenceGaps.RunTallies | crates/wiretap-protocol/src/testpattern.rs:453-482 | of any run: a number is late exactly when it is at least 32768 steps ahead, modulo 65536, of the one after the furthest; every other number past the expected one is a gap, from the one to the other, and the drops are the steps of all of them |
| SequenceGaps.RemovedFramesAreDrops | crates/wiretap-protocol/src/testpattern.rs:406-482 | of a consecutive stream, wraps included, with frames removed and fewer than 32768 missing in a row: the drops are the frames removed between the first and the last received, the gaps are exactly the holes, and nothing is out of order |
| SequenceGaps.TheLongestGap | crates/wiretap-protocol/src/testpattern.rs:467-478 | one frame more missing and the next is taken for a late one |
| SequenceTracking.PerfectStream | crates/wiretap-protocol/src/testpattern.rs:406-482 | a consecutive stream of any length and start, wraps included, has no drops, gaps or late frames, and one duplicate for every frame past 65536 |
| Responder.TestResponder.Handle | crates/wiretap-protocol/src/testpattern.rs:611-674 | the new state and the replies are those of the transition function |
| Responder.TestResponder.HandleControl | crates/wiretap-protocol/src/testpattern.rs:676-740 | so for control messages; a start replaces the tracker |
| ResponderTheorems.RepliesAreIgnored | crates/wiretap-protocol/src/testpattern.rs:617-624 | whatever any responder sends, no responder in any state answers it or changes because of it |
| ResponderTheorems.RunsAreIsolated | crates/wiretap-protocol/src/testpattern.rs:642-645 | removing whatever framed non-control traffic is not of the run the responder is on when it arrives changes no reply and no counter, whichever runs are started and stopped on the way |
| ResponderTheorems.OneRunIsIsolated | crates/wiretap-protocol/src/testpattern.rs:642-645 | where one run alone is ever started, removing all such traffic of other tags changes nothing either |
| ResponderTheorems.ForeignDroppedIff | crates/wiretap-protocol/src/testpattern.rs:135-138 | a framed message of another run is dropped exactly when it is not a control command the responder acts on |
| ResponderTheorems.ForeignStopEndsTheRun | crates/wiretap-protocol/src/testpattern.rs:135-138 | a stop tagged with another run ends this one |
| ResponderTheorems.IdleAnswersIff | crates/wiretap-protocol/src/testpattern.rs:611-740 | without a run exactly a hello and a status request are answered |
| ResponderTheorems.IdleAnswersStatus | crates/wiretap-protocol/src/testpattern.rs:53-54 | a status request to an idle responder gets its four replies |
| ResponderTheorems.CountsReplies | crates/wiretap-protocol/src/testpattern.rs:742-746 | the transmit counter is the number of frames handed back since the last start |
| ResponderTheorems.ResponderBalances | crates/wiretap-protocol/src/testpattern.rs:611-740 | over any traffic, starts and stops included, the responder's tally balances over what its current run sent it: received is numbered messages plus sweeps, the rest follows from the numbers |
| ResponderTheorems.SweepRoundTrip | crates/wiretap-protocol/src/testpattern.rs:619-637 | a sweep request that arrives whole comes back under its own code and matches that code alone |
| ResponderTheorems.PingRoundTrip | crates/wiretap-protocol/src/testpattern.rs:647-672 | a ping of the responder's run is tracked and answered in kind with its own number and tag |
| ResponderReports.LatencyRoundTrip | crates/wiretap-protocol/src/testpattern.rs:647-672 | a latency probe of the responder's run is tracked and answered in kind, with its own number, timestamp and flags read back from the reply's bytes |
| ResponderReports.ThroughputTracked | crates/wiretap-protocol/src/testpattern.rs:652-661 | a throughput message is tracked under its number and not answered |
| ResponderReports.SweepEchoed | crates/wiretap-protocol/src/testpattern.rs:619-637 | a sweep request during a run comes back as it came, and is counted but not tracked |
| ResponderReports.HelloRoundTrip | crates/wiretap-protocol/src/testpattern.rs:685-694 | a hello is answered in kind with capabilities and bus, run or no run |
| ResponderReports.StartAndStop | crates/wiretap-protocol/src/testpattern.rs:695-705 | a start names the run and begins every count anew, a stop ends the run and keeps the counts |
| ResponderReports.StatusReport | crates/wiretap-protocol/src/testpattern.rs:706-735 | the four replies to a status request, read back from their bytes: field 0 the frames received, 1 the replies sent before, 2 the drops and 3 the rate, each held at 2^24 - 1, in kind and under the request's flags |
| ResponderReports.RateIs | crates/wiretap-protocol/src/testpattern.rs:706-712 | the rate is frames per second since the start, rounded down, and 0 if no time has passed or the product does not fit 64 bits |
| Slcan.EncodeFrameInto | crates/wiretap-protocol/src/slcan.rs:237-264 | the loops append the printed line and its terminator |
| SlcanTheorems.PrintThenParse | crates/wiretap-protocol/src/slcan.rs:181-264 | every printed frame parses to what was sent of it, the id at its own width and the payload zero-padded to its code, except a classic code above 8, which does not parse |
| SlcanLines.LineOf | crates/wiretap-protocol/src/slcan.rs:237-264 | a line character by character: the letter of its kind, the id's three or eight hexadecimal digits most significant first, its code, and two digits for each byte the code stands for |
| SlcanLines.KindsAre | crates/wiretap-protocol/src/slcan.rs:181-193 | the eight first characters of a frame's line and what each says; no other begins one |
| SlcanLines.NoFrame | crates/wiretap-protocol/src/slcan.rs:181-216 | a line of no kind, one too short for its code or its payload, and a classic one with a code above 8 is no frame |
| SlcanLines.EitherCase | crates/wiretap-protocol/src/slcan.rs:181-216 | a line reads the same with each digit of id, code and payload in either case |
| SlcanLines.NoOtherDigit | crates/wiretap-protocol/src/slcan.rs:199 | exactly the characters of 0123456789ABCDEF and 0123456789abcdef are digits |
| SlcanLines.PlusSign | crates/wiretap-protocol/src/slcan.rs:197 | ids and bytes may begin with a plus sign |
| SlcanLines.PlusSignInALine | crates/wiretap-protocol/src/slcan.rs:181-216 | so t+121+A is a frame with id 12 and the byte 0A |
| Slcan.LineDecoder.Feed | crates/wiretap-protocol/src/slcan.rs:306-330 | the byte loop computes the lines and the line in progress of the specification |
| SlcanLines.EmptyLine | crates/wiretap-protocol/src/slcan.rs:306-330 | a terminator on its own is no line |
| SlcanLines.LineReadAs | crates/wiretap-protocol/src/slcan.rs:306-330 | a line of at most 512 printable characters comes out at a carriage return or a line feed and is lost at a bell or a further character past 512; any other byte is as if it were not there |
| SlcanTheorems.AnyChunking | crates/wiretap-protocol/src/slcan.rs:306-330 | any way of cutting a stream reads the same |
| SlcanTheorems.LineBounded | crates/wiretap-protocol/src/slcan.rs:33-38 | the line in progress never exceeds 512 bytes |
| SlcanTheorems.DroppedBytesDoNotMatter | crates/wiretap-protocol/src/slcan.rs:301-305 | control and non-ASCII bytes make no difference wherever they fall |
| SlcanTheorems.StreamThrough | crates/wiretap-protocol/src/slcan.rs:301-330 | printed frames, other replies, bare terminators and lines cut short by a bell, in any order and chunking with dropped bytes anywhere, yield exactly the frames and replies in order |
| SlcanTheorems.OverlongForgotten | crates/wiretap-protocol/src/slcan.rs:303-305 | an overlong line leaves no trace, so what follows it is read as a line of its own |

## Left out

- TOML catalogues, their editing and migration, DBC import and export: plumbing over libraries.
- Scale, offset, `Decimal` and every use of floating point: values are the raw integers, so `scale_to_raw`'s
  rounding and `extract_bits`' final conversion are not here.
- `detect.rs`, `columns.rs`, `wiretap-analysis` and `mirror.rs`: tuned heuristics and float timestamps.
- `gs_usb.rs`, `socketcan.rs`, `ingest.rs`, SLCAN version strings, command tables and latency percentiles:
  fixed layouts and easy members beside the ones above.
- Rayon's parallel polynomial search and the iteration order of hash maps: sequences, and any order where the
  code depends on none.
- Machine limits that the code does not handle itself: counters of 64 bits, lengths past `usize`, the negation of
  the smallest 32-bit index, register and bit offsets near the top of 32 bits. Counters are unbounded; where the code
  wraps, saturates, truncates or clamps on purpose, so does the model.
- Text as Unicode: a line is its bytes. The line decoder only ever holds printable ASCII.
- The catalogue's tunnel table, the constructors that only pass defaults on.
- RegisterRoundTrip.WriteThenRead: for the big byte order only (`ByteOrders.ReadsBackIff` says which others work), and
  for signals whose registers lie below address 65536, because past it addresses saturate.
- RtuCleanStream.CleanStreamExact: needs that no other layout at a message's head is complete in the stream and valid;
  `RtuAmbiguity.AlwaysReadIff` shows that it cannot do without.
- RtuContents.ReadResponseSays: for any number of bytes but three; `RtuContents.ThreeBytesAreARequest` says what those are
  read as.
- RtuContents.ReadExchange, RtuContents.ReadRefused, RtuContents.SingleWriteExchange and RtuContents.WriteExchange: for
  two messages that are clean in the sense of `RtuCleanStream.CleanStreamExact`.
- RtuNoisyStream.NoisyStreamExact: needs the same, with what lies behind the message as it is on the wire.
- GvretClientStream.ASecondHandshakeEats: sets one cutting against the whole; `GvretChunking.LatchedIff` has the exact
  condition.
- RtuPolicies.PoliciesAgreeIff, RtuPolicies.PoliciesFinishAlikeIff: the condition is on what the lenient policy gives;
  `RtuPolicies.PoliciesAgreeOnStreamIff` has it on what the strict one does with the stream.
- StoredChecksum.CarriedIsSolved: as SolveTheorems.SolveCrcComplete.
- SolveTheorems.SolveCrcComplete: a fitting shape can be pushed out of a full list, which is what the limit is for.
- Collapse.CollapseConserves: speaks of what was found and over which range; `Collapse.CollapseSound` says that each entry
  is a solution as it was solved.
- SamplingTheorems.SelectedCount: for a distinct pool; `SamplingTheorems.PoolIs` shows that the pool is one.
- Collapse.CollapseWidest: the order is the code's own, on offsets as written; `Collapse.CollapseWidestInFrames` says when
  it is the order of positions in a frame.
- GvretClientStream.ClientRoundTrip: for streams without two adjacent handshake bytes behind the handshake.
- ResponderTheorems.RunsAreIsolated: of traffic other than control; control messages of any run are acted on.
- ResponderTheorems.OneRunIsIsolated: for traffic that starts this run alone.
- FieldValues.AlignedReadsAs: for signals whose registers are all there; `FieldValues.FieldCutShort` and
  `FieldValues.SwappedFrom` have what is read past the end.
- OnTheWire.AlignedOnTheWire and OnTheWire.FieldOnTheWire: the address is said below 65536; `OnTheWire.AddressesStop` has
  the rest.
- Gvret.EncodeFrameInto, Gvret.EncodeTransmitInto and Slcan.EncodeFrameInto: return the longer buffer instead of growing
  one in place.
- RtuReassembler.ModbusRtuStream and the decoder classes hold their buffer as a sequence, so capacity and
  reallocation are not modelled.
- RtuFrames.FrameCountsAreSpans: for clean streams; `RtuTraces.CountIsSpanIff` has the exact condition for every stream.
- RtuTraces.CountIsSpanIff: for non-empty frames, which `RtuTraces.EmptyFramesDoNothing` shows to be enough.
- SequenceGaps.RemovedFramesAreDrops: for fewer than 32768 missing in a row; `SequenceGaps.TheLongestGap` shows that one
  more is taken for a late frame.
- SequenceTracking.PerfectStream: counts the duplicates of a link that has none, as the bitmap does.
- Line endings, bitrates and other commands a host sends a device over SLCAN.
