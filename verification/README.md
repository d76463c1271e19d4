# Verified models of the Scenargie 802.11 MAC and its Boost algorithms

This project models six parts of the Scenargie simulator's source tree in Dafny and proves what
they promise. Each part that works by changing state is a class or a loop, proved against a
specification on values; what the part is for is then proved about the specification, for all
inputs or all runs.

| part | specification | program |
|---|---|---|
| Block Ack receive reordering | SequenceNumbers, ReorderSpec, ReorderSafety | IncomingBuffer, ReorderReplay |
| CRC engines | BitStrings, CrcTheory, PolynomialDivision | CrcEngines |
| exact rationals | Gcd (definition and theory) | Gcd (algorithms), Rational |
| station association | StaSpec, StaRuns, StaLaws | ScanningController, StaController, StaReplay |
| association ids of an access point | ApAssociation (functions) | ApAssociation (class) |
| escaped-list tokenizer | Spelling, Tokenizer (functions) | Tokenizer (classes) |

**Block Ack receive reordering.** A session is specified without bitmap and queue: a log of first
arrivals under true numbers, the window start W and the lowest missing number L. The buffer keeps a
64-bit scoreboard and a priority queue; each of its methods is one step of the specification. From
that follow, over whole runs, an increasing stream without duplicates, no loss, gaps only where a
block ack request gave numbers up, and acknowledgement reports that are true across the twelve-bit
wrap-around. These are stated for every run whose numbers are in range. The assertions of the drain
loops are *not* true of all such runs: a frame without data that arrives early sets a bit without
queueing a frame (`EarlyNonDataBreaksDrain`). Two exact conditions are proved. A run passes all
assertions and leaves every continuation safe if and only if each frame without data was seen
before or next in order when it came (`OrderlyIffAlwaysSafe`). A run passes all assertions if and
only if no event drains over a number that was taken early in it (`SafeIffUndrained`). Under the
second condition the buffer object is followed from a link's first frame to its report
(`ReplayFromIdle`). The first condition is the one for callers: it asks of each frame only what
counter and scoreboard tell when it comes. The second reads the steps of the run and says exactly
what goes wrong.

Nothing is handed up twice within a session, nor before one. Across the request that opens a
session it can happen: the request sets the counter to its own number, so a frame just handed up
passes again (`OpeningRepeats`). `OpeningIff` says exactly when numbers keep rising.

**CRC engines.** Registers are words of any width of at least the CRC's width; what stands above
the CRC's bits is garbage unless a contract says otherwise. The bit-serial engine defines division;
the table-driven engine is proved equal to it through GF(2) linearity (`Absorb`) and a simulation
up to bit reversal; the augmented form is related to both. The register of either is the one remainder
of polynomial division (`RegisterIsRemainder`, `RemainderIsUnique`), and a message followed by its
own checksum leaves a constant (`ResidueIsConstant`).

**Rationals.** Two's-complement ranges matter in two places. In the comparison by continued fractions
every value formed is proved to fit. In `normalize` the least value has no opposite: the source
refuses it as a denominator, but as a numerator over a negative denominator it silently keeps its
sign (`LeastNumeratorKeepsSign`). `Normalize` states exactly when. In the other operators integers
are unbounded.

**Station association.** The station controller and the scanning controller are two classes with
the source's fields. A five-phase machine with one timer is the specification. Runs in which
`SwitchToAccessPoint` is never called are covered, with at least one channel and valid beacon
source addresses; time, beacon contents and the averaging of signal strengths are parameters. The
source looks at no sender when it accepts an authentication frame, and neither does the model.
Module StaLaws reads what the machine knows and does off the frames and timeouts of the run.

**Association ids.** The source asserts that an id is found; the model returns `TooManyStations`
there, and proves when that happens.

**Tokenizer.** What a text means is stated without scanning, as a list of fields written character by
character (`TokensAreMeanings`); every accepted text is such a list. A list that is quoted, escaped
and joined is read back, except when `n` is itself an escape or quote character and occurs in a
field, because an escaped `n` always means a line feed. The exact condition is `RoundTrip`.

## Model

| member | source | states |
|---|---|---|
| `SequenceNumbers.TwelveBitDifference` | scenargie_simulator/2.1/source/simulator/scensim_support.h:1301-1347 | the difference is congruent to a − b modulo 4096 and at most 2048 in magnitude; at the antipode +2048 is taken when a < b and −2048 when b < a |
| `SequenceNumbers.DecodeAfterTruncate` | scenargie_simulator/2.1/source/dot11/dot11_incoming_buffer.h:170-193 | truncating a number to twelve bits and decoding it near a reference gives it back if and only if it is `Decodable`: less than half the ring away, or exactly half the ring away on the favoured side |
| `SequenceNumbers.TruncateAfterDecode` | scenargie_simulator/2.1/source/dot11/dot11_incoming_buffer.h:170-193 | decoding any header and truncating gives the header back |
| `SequenceNumbers.DifferenceIsDistance` | scenargie_simulator/2.1/source/dot11/dot11_headers.h:317-329 | below half the ring the header difference is the true distance, across wrap-around |
| `SequenceNumbers.HalfRingIsAmbiguous` | scenargie_simulator/2.1/source/simulator/scensim_support.h:1318-1347 | the symmetric range of 4096 numbers is not decodable as a whole: a concrete pair at half the ring comes back on the wrong side |
| `ReorderSpec.AfterArrival` | scenargie_simulator/2.1/source/dot11/dot11_incoming_buffer.h:198-276 | for any frame number below L + 64 the session invariant W ≤ L ≤ W + 64, all numbers of [W, L) received, L not received, nothing logged at or above W + 64, is kept |
| `ReorderSpec.AfterRequest` | scenargie_simulator/2.1/source/dot11/dot11_incoming_buffer.h:456-502 | every block ack request that does not move the window back keeps the same invariant, sets the start of the window to its number and forgets nothing received |
| `ReorderSpec.FramesExact` | scenargie_simulator/2.1/source/dot11/dot11_incoming_buffer.h:125-128 | the released or held frames of a range are exactly the logged data frames of that range, each once, in increasing number order |
| `ReorderSpec.StepKeepsPast` | scenargie_simulator/2.1/source/dot11/dot11_incoming_buffer.h:319-330 | every step only appends to what was handed up; earlier output is never revised |
| `ReorderSpec.LogIsAccepted` | scenargie_simulator/2.1/source/dot11/dot11_incoming_buffer.h:198-276 | for every run whose numbers are in range, what stands in the record under a number is exactly the arrival that one event of the run brought and the buffer accepted under that number |
| `ReorderSpec.StreamOfRun` | scenargie_simulator/2.1/source/dot11/dot11_incoming_buffer.h:319-330 | for every such run of data frames, frames without data and block ack requests, everything handed up is strictly increasing, so without duplicates, and is exactly the data frames that its events brought and the buffer accepted under numbers below L |
| `ReorderSpec.NothingLost` | scenargie_simulator/2.1/source/dot11/dot11_incoming_buffer.h:364-374 | for every such run, the stream followed by the queue is strictly increasing and is exactly the data frames accepted from the events: each was handed up once or is still held, and nothing else was or is |
| `ReorderSpec.LogIsArrivals` | scenargie_simulator/2.1/source/dot11/dot11_incoming_buffer.h:216-273 | for every run, a number at or above W is recorded as received exactly when a frame with that true number arrived, however the window moved |
| `ReorderSpec.SeenIsHistory` | scenargie_simulator/2.1/source/dot11/dot11_incoming_buffer.h:198-230 | for every run, what the buffer passes over can be read off the run: exactly the numbers before the session's start, those that arrived and those that were given up |
| `ReorderSpec.GapsAreGivenUp` | scenargie_simulator/2.1/source/dot11/dot11_incoming_buffer.h:468-502 | for every run, a number below L is missing from the record exactly when some block ack request gave it up |
| `ReorderSpec.WindowAfterStep` | scenargie_simulator/2.1/source/dot11/dot11_incoming_buffer.h:455-466 | every request sets the start of the window to its own number, whatever L is, and forgets nothing received; a frame moves it to 63 below its number if that is higher |
| `ReorderSpec.WindowIsDetermined` | scenargie_simulator/2.1/source/dot11/dot11_incoming_buffer.h:198-273 | for every run, where the window starts is a function of the events alone |
| `ReorderSpec.LowestIsDetermined` | scenargie_simulator/2.1/source/dot11/dot11_incoming_buffer.h:468-502 | for every run, L is the least number from the start on that neither arrived nor was given up |
| `ReorderSpec.RequestOutput` | scenargie_simulator/2.1/source/dot11/dot11_incoming_buffer.h:456-502 | a block ack request hands up exactly the held frames below the new start and the unbroken run from it, and only if the start passes L |
| `ReorderSafety.TidyIffSafe` | scenargie_simulator/2.1/source/dot11/dot11_incoming_buffer.h:232-246 | every event with a number in range passes all assertions of both drain loops if and only if no number at or above L was taken by a frame without data |
| `ReorderSafety.UntidyFails` | scenargie_simulator/2.1/source/dot11/dot11_incoming_buffer.h:488-501 | at a number that was so taken, a block ack request for it is in range and fails |
| `ReorderSafety.TidyAfterArrival` | scenargie_simulator/2.1/source/dot11/dot11_incoming_buffer.h:412-420 | an arrival keeps that condition if and only if it carries data, was seen before, or is next in order |
| `ReorderSafety.TidyAfterRequest` | scenargie_simulator/2.1/source/dot11/dot11_incoming_buffer.h:468-502 | block ack requests always keep it |
| `ReorderSafety.OrderlyIffAlwaysSafe` | scenargie_simulator/2.1/source/dot11/dot11_incoming_buffer.h:232-246 | for every run from such a session with numbers in range: at every point of it every event that could come passes all assertions, if and only if each frame without data was seen before or next in order when it came |
| `ReorderSafety.OrderlyIsSafe` | scenargie_simulator/2.1/source/dot11/dot11_incoming_buffer.h:232-246 | in particular all events of such a run pass |
| `ReorderSafety.EnabledIff` | scenargie_simulator/2.1/source/dot11/dot11_incoming_buffer.h:488-501 | the assertions fail at an event exactly when it drains over a number taken without data |
| `ReorderSafety.SafeIffUndrained` | scenargie_simulator/2.1/source/dot11/dot11_incoming_buffer.h:198-276 | for every run from such a session with numbers in range: all assertions of all its events hold if and only if no event drains over a number that a frame without data took before its turn; a request that starts beyond such a number does no harm |
| `ReorderSafety.EarlyNonDataBreaksDrain` | scenargie_simulator/2.1/source/dot11/dot11_incoming_buffer.h:412-420 | a null frame that arrives early, followed by the missing data frame, makes the drain assertion fail: a concrete run of two frames |
| `ReorderSpec.AcceptedNumbersDecode` | scenargie_simulator/2.1/source/dot11/dot11_incoming_buffer.h:319-322 | every number a window step can accept, and every request less than half the ring ahead, is decoded from its twelve bits exactly |
| `IncomingBuffer.PushFrames` | scenargie_simulator/2.1/source/dot11/dot11_incoming_buffer.h:125-128 | pushing a frame on the priority queue yields the queue of the log extended by that frame |
| `IncomingBuffer.TopIsNext` | scenargie_simulator/2.1/source/dot11/dot11_incoming_buffer.h:232-246 | the top of the queue carries a given received number next in line if and only if that number holds a data frame |
| `IncomingBuffer.PayloadsAt` | scenargie_simulator/2.1/source/dot11/dot11_incoming_buffer.h:488-500 | what is handed up for a list of held frames is those frames, in order |
| `IncomingBuffer.BufferLinkInfo.constructor` | scenargie_simulator/2.1/source/dot11/dot11_incoming_buffer.h:133-143 | a new link is idle, expects number 1 and holds nothing |
| `IncomingBuffer.BufferLinkInfo.DrainFrom` | scenargie_simulator/2.1/source/dot11/dot11_incoming_buffer.h:232-246 | from L on, the drain loop releases exactly the unbroken run of received frames, its top-of-queue assertion holds at every turn, and counter and queue end at the first gap |
| `IncomingBuffer.BufferLinkInfo.SlideWindow` | scenargie_simulator/2.1/source/dot11/dot11_incoming_buffer.h:250-273 | a number past the window moves the window by exactly enough; in the fully in-order case the queue is empty, as asserted |
| `IncomingBuffer.BufferLinkInfo.MarkInWindow` | scenargie_simulator/2.1/source/dot11/dot11_incoming_buffer.h:216-248 | a clear bit inside the window is set, and if the number is L the run behind it is released |
| `IncomingBuffer.BufferLinkInfo.UpdateReceivedFrameBitmap` | scenargie_simulator/2.1/source/dot11/dot11_incoming_buffer.h:198-276 | the whole scoreboard step equals `AfterArrival`; "already seen" and "in order" are reported exactly; the released frames are those between the old and the new L |
| `IncomingBuffer.BufferLinkInfo.FilterRepetition` | scenargie_simulator/2.1/source/dot11/dot11_incoming_buffer.h:296-315 | without a session a frame is a repetition exactly when its decoded number is below the counter, which otherwise moves just past it |
| `IncomingBuffer.BufferLinkInfo.AcceptData` | scenargie_simulator/2.1/source/dot11/dot11_incoming_buffer.h:316-332 | an in-order frame followed by the released ones is exactly the step's output; an early one is held; a seen one is dropped; counters, bitmap and queue match the session again |
| `IncomingBuffer.BufferLinkInfo.AcceptNonData` | scenargie_simulator/2.1/source/dot11/dot11_incoming_buffer.h:408-422 | a frame without data uses its number and releases exactly what the step outputs |
| `IncomingBuffer.BufferLinkInfo.PopBelow` | scenargie_simulator/2.1/source/dot11/dot11_incoming_buffer.h:470-484 | exactly the held frames below the new start are popped, in order |
| `IncomingBuffer.BufferLinkInfo.ReleaseTo` | scenargie_simulator/2.1/source/dot11/dot11_incoming_buffer.h:468-502 | the frames below the new start and then the run from it are released; the counter ends at the first gap |
| `IncomingBuffer.BufferLinkInfo.MoveStart` | scenargie_simulator/2.1/source/dot11/dot11_incoming_buffer.h:456-502 | an active-session request is one `AfterRequest` step, its output included |
| `IncomingBuffer.BufferLinkInfo.StartSession` | scenargie_simulator/2.1/source/dot11/dot11_incoming_buffer.h:441-448 | a first request starts a fresh session at the requested number |
| `IncomingBuffer.IncomingFrameBuffer.constructor` | scenargie_simulator/2.1/source/dot11/dot11_incoming_buffer.h:158 | a new receiver knows no link: each is idle and expects number 1 |
| `IncomingBuffer.IncomingFrameBuffer.Link` | scenargie_simulator/2.1/source/dot11/dot11_incoming_buffer.h:282-296 | first use of a link creates its entry and changes what is known of no link |
| `IncomingBuffer.IncomingFrameBuffer.ProcessIncomingFrame` | scenargie_simulator/2.1/source/dot11/dot11_incoming_buffer.h:282-332 | a data frame makes its link's step and leaves every other link as it was |
| `IncomingBuffer.IncomingFrameBuffer.ProcessIncomingSubframe` | scenargie_simulator/2.1/source/dot11/dot11_incoming_buffer.h:337-376 | the same for a frame of an aggregate, for which a session is required |
| `IncomingBuffer.IncomingFrameBuffer.ProcessIncomingNonDataFrame` | scenargie_simulator/2.1/source/dot11/dot11_incoming_buffer.h:381-422 | the same for a frame without data |
| `IncomingBuffer.IncomingFrameBuffer.ProcessBlockAckRequestFrame` | scenargie_simulator/2.1/source/dot11/dot11_incoming_buffer.h:427-504 | a request starts a session or makes the session's step, releasing exactly its output |
| `IncomingBuffer.IncomingFrameBuffer.GetBlockAckInfo` | scenargie_simulator/2.1/source/dot11/dot11_incoming_buffer.h:509-532 | the report is the truncated window start with the window's part of the log; a known link without a session reports start 1 and nothing received |
| `IncomingBuffer.IncomingFrameBuffer.HasFramesToSendUpStack` | scenargie_simulator/2.1/source/dot11/dot11_incoming_buffer.h:536-553 | it is false in every state between steps: no deliverable frame is ever stranded |
| `IncomingBuffer.AckedIffLogged` | scenargie_simulator/2.1/source/dot11/dot11_headers.h:317-329 | for numbers up to half the ring above W, the report says acked exactly for logged numbers inside the window, across the wrap-around |
| `IncomingBuffer.AckedIffArrived` | scenargie_simulator/2.1/source/dot11/dot11_headers.h:317-329 | for every run, the report says acked exactly when a frame with that true number arrived |
| `IncomingBuffer.QueueBound` | scenargie_simulator/2.1/source/dot11/dot11_incoming_buffer.h:272-273 | at most 63 frames are ever held |
| `ReorderReplay.IdleStreamIncreases` | scenargie_simulator/2.1/source/dot11/dot11_incoming_buffer.h:296-315 | without a session the numbers handed up only rise, so no repetition passes |
| `ReorderReplay.CounterIsAbove` | scenargie_simulator/2.1/source/dot11/dot11_incoming_buffer.h:296-315 | without a session the counter is one more than the greatest number so far, or the initial one |
| `ReorderReplay.IdleStreamIs` | scenargie_simulator/2.1/source/dot11/dot11_incoming_buffer.h:296-315 | without a session a data frame is handed up exactly if its number is not below the first one and greater than that of every frame before it |
| `ReorderReplay.OpeningIff` | scenargie_simulator/2.1/source/dot11/dot11_incoming_buffer.h:441-448 | numbers rise across the opening of a session, whatever the session brings, if and only if the opening number, decoded near the idle counter, is above the last number handed up before |
| `ReorderReplay.OpeningAtCounter` | scenargie_simulator/2.1/source/dot11/dot11_incoming_buffer.h:441-448 | so they do if it is not below the counter, and only then if the counter stands right behind the last number handed up |
| `ReorderReplay.OpeningRepeats` | scenargie_simulator/2.1/source/dot11/dot11_incoming_buffer.h:441-448 | a request that opens the session at the number just handed up lets its frame through a second time: for every number, one frame, the request, the frame again |
| `ReorderReplay.IdleTurn` | scenargie_simulator/2.1/source/dot11/dot11_mac.h:6216-6225 | without a session the upper layer gets a data frame exactly if its number passes the filter |
| `ReorderReplay.Turn` | scenargie_simulator/2.1/source/dot11/dot11_mac.h:6216-6225 | in a session the upper layer gets an in-order frame first and then the released ones, which is the step's output |
| `ReorderReplay.ReplayIdle` | scenargie_simulator/2.1/source/dot11/dot11_mac.h:6216-6225 | over every run of frames before a session the buffer object hands up exactly the idle stream |
| `ReorderReplay.Replay` | scenargie_simulator/2.1/source/dot11/dot11_mac.h:6216-6225 | over every run of a session that meets `SafeIffUndrained`'s condition no assertion fails, the buffer object hands up exactly the run's stream, and no other link changes |
| `ReorderReplay.ScoreboardReports` | scenargie_simulator/2.1/source/dot11/dot11_headers.h:317-329 | a report is a function of the events: it starts where they put the window, and the peer reads from it exactly what arrived |
| `ReorderReplay.ReplaySession` | scenargie_simulator/2.1/source/dot11/dot11_incoming_buffer.h:427-532 | from the request that opens a session to the end of any such run, the object hands up the session's stream and then reports, from where the events put the window, acked exactly for what arrived |
| `ReorderReplay.ReplayFromIdle` | scenargie_simulator/2.1/source/dot11/dot11_incoming_buffer.h:282-532 | for the whole life of a link, from frames without a session over the request that opens one to the end of any such run: what the object hands up is the two streams, with rising numbers where `OpeningIff` says so, and the report it then gives says acked exactly for what arrived |
| `CrcTheory.FeedConcat` | scenargie_simulator/2.1/source/boost/crc.hpp:784-797 | division of a concatenated message is division of the parts in turn |
| `CrcTheory.Absorb` | scenargie_simulator/2.1/source/boost/crc.hpp:564-622 | GF(2) linearity: a chunk of bits can be divided by comparing it with the register's top, dividing that from an empty register, and adding the shifted register |
| `CrcTheory.AugmentedAbsorb` | scenargie_simulator/2.1/source/boost/crc.hpp:1045-1076 | the same for a message that is shifted through the register from below |
| `CrcTheory.AugmentedIsFeed` | scenargie_simulator/2.1/source/boost/crc.hpp:1045-1076 | the augmented register, divided out, is the plain remainder of initial register and message |
| `CrcTheory.AugmentedTrailer` | scenargie_simulator/2.1/source/boost/crc.hpp:1045-1076 | a register's width of trailing bits is added to the plain remainder of everything before |
| `CrcTheory.ZeroIffTrailerIsRemainder` | scenargie_simulator/2.1/source/boost/crc.hpp:1045-1076 | from zero, message and trailer leave zero if and only if the trailer is the remainder |
| `PolynomialDivision.RegisterIsRemainder` | scenargie_simulator/2.1/source/boost/crc.hpp:727-797 | for every width, polynomial, initial value and message: the message polynomial times x^n, with the initial value on its leading places, is some multiple of the polynomial plus the register |
| `PolynomialDivision.RemainderIsUnique` | scenargie_simulator/2.1/source/boost/crc.hpp:727-797 | there is only one such multiple and one such register |
| `CrcEngines.MessageBit` | scenargie_simulator/2.1/source/boost/crc.hpp:753-797 | the bits that are divided are those of the bytes in order, each most significant bit first, or least significant first where input is reflected |
| `CrcEngines.FinishedBits` | scenargie_simulator/2.1/source/boost/crc.hpp:814-823 | bit by bit, a checksum is the possibly reflected remainder with the final value added, in either case |
| `CrcEngines.Reflect` | scenargie_simulator/2.1/source/boost/crc.hpp:297-326 | the lowest n bits come out in reverse order and everything else is clear, for words of any width |
| `CrcEngines.SerialStep` | scenargie_simulator/2.1/source/boost/crc.hpp:727-751 | the word operations of one bit step do one division step on the low bits, whatever stands above them |
| `CrcEngines.CrcBasic.constructor` | scenargie_simulator/2.1/source/boost/crc.hpp:630-644 | a new engine holds the initial remainder |
| `CrcEngines.CrcBasic.GetInterimRemainder` | scenargie_simulator/2.1/source/boost/crc.hpp:696-704 | the interim remainder is the register with the garbage above it cleared |
| `CrcEngines.CrcBasic.Reset` | scenargie_simulator/2.1/source/boost/crc.hpp:706-725 | a reset engine holds the given remainder |
| `CrcEngines.CrcBasic.ProcessBit` | scenargie_simulator/2.1/source/boost/crc.hpp:727-751 | one division step |
| `CrcEngines.CrcBasic.ProcessBits` | scenargie_simulator/2.1/source/boost/crc.hpp:753-770 | the lowest bits of a byte are divided, most significant first |
| `CrcEngines.CrcBasic.ProcessByte` | scenargie_simulator/2.1/source/boost/crc.hpp:772-782 | a byte is divided in transmission order, reflected if input is |
| `CrcEngines.CrcBasic.ProcessBlock` | scenargie_simulator/2.1/source/boost/crc.hpp:784-797 | a block is divided as its message |
| `CrcEngines.CrcBasic.Checksum` | scenargie_simulator/2.1/source/boost/crc.hpp:814-823 | bit i of the checksum is bit i of the remainder, or its mirror image where reflected, plus bit i of the final value in either case; the upper bits are clear |
| `CrcEngines.CrcTable.Divide` | scenargie_simulator/2.1/source/boost/crc.hpp:490-536 | the inner loop divides one byte value from an empty register |
| `CrcEngines.CrcTable.Store` | scenargie_simulator/2.1/source/boost/crc.hpp:490-536 | each turn of the outer loop puts one entry in place and disturbs none of the earlier ones |
| `CrcEngines.CrcTable.InitTable` | scenargie_simulator/2.1/source/boost/crc.hpp:490-536 | every entry of the table is the division of its index, stored reflected when input is, and a second call changes nothing |
| `CrcEngines.EveryIndexIsReached` | scenargie_simulator/2.1/source/boost/crc.hpp:490-536 | the dividends' possibly reflected indices cover the whole table |
| `CrcEngines.IndexIsComparison` | scenargie_simulator/2.1/source/boost/crc.hpp:541-622 | the table index is the byte compared with the remainder's top byte, for registers wider and narrower than a byte, reflected or not |
| `CrcEngines.ShiftIsShift` | scenargie_simulator/2.1/source/boost/crc.hpp:564-622 | shifting the word by a byte, in whichever direction, shifts the remainder by eight places |
| `CrcEngines.LookupIsEightSteps` | scenargie_simulator/2.1/source/boost/crc.hpp:944-966 | one table look-up does the work of eight bit-serial steps |
| `CrcEngines.CrcOptimal.constructor` | scenargie_simulator/2.1/source/boost/crc.hpp:832-843 | a new fast engine stands for the initial remainder and has an initialised table |
| `CrcEngines.CrcOptimal.GetInterimRemainder` | scenargie_simulator/2.1/source/boost/crc.hpp:905-916 | the interim remainder is the remainder the word stands for |
| `CrcEngines.CrcOptimal.Reset` | scenargie_simulator/2.1/source/boost/crc.hpp:918-929 | a reset fast engine stands for the given remainder |
| `CrcEngines.CrcOptimal.ProcessBlock` | scenargie_simulator/2.1/source/boost/crc.hpp:944-966 | the fast loop divides the block's message exactly as the bit-serial engine does |
| `CrcEngines.CrcOptimal.ProcessByte` | scenargie_simulator/2.1/source/boost/crc.hpp:931-942 | the same for one byte |
| `CrcEngines.CrcOptimal.Checksum` | scenargie_simulator/2.1/source/boost/crc.hpp:984-995 | the same bits from the remainder the fast engine stands for, in all four reflection settings |
| `CrcEngines.Crc` | scenargie_simulator/2.1/source/boost/crc.hpp:1025-1040 | the one-shot form gives the CRC of its parameters |
| `CrcEngines.BothEngines` | scenargie_simulator/2.1/source/boost/crc.hpp:696-995 | for every width, word size, polynomial, initial and final value, reflection setting and byte string, both engines give the same interim remainder and the same checksum, which is that remainder, mirrored if required, plus the final value, bit by bit |
| `CrcEngines.ResidueIsConstant` | scenargie_simulator/2.1/source/boost/crc.hpp:814-823 | for every polynomial of whole bytes, initial and final value and message, reflected throughout or not at all: a message followed by its own checksum leaves a register that depends on the final value alone |
| `CrcEngines.AugmentedTurn` | scenargie_simulator/2.1/source/boost/crc.hpp:1045-1076 | one turn of the augmented loop does eight augmented bit steps |
| `CrcEngines.AugmentedCrc` | scenargie_simulator/2.1/source/boost/crc.hpp:1045-1076 | the augmented form computes the augmented division of the buffer, for every width of at least a byte |
| `CrcEngines.AugmentedWithZeros` | scenargie_simulator/2.1/source/boost/crc.hpp:1045-1076 | from zero, a message with a register's width of zero bytes gives the plain CRC of the message |
| `CrcEngines.AugmentedWithCrc` | scenargie_simulator/2.1/source/boost/crc.hpp:1045-1076 | from zero, a message with a trailer gives zero if and only if the trailer is its CRC, most significant byte first |
| `Gcd.GcdUnique` | scenargie_simulator/2.1/source/boost/integer/common_factor_rt.hpp:82-108 | the definition is the greatest common divisor: any positive common divisor that is a combination of the arguments equals it |
| `Gcd.CommonDivides` | scenargie_simulator/2.1/source/boost/integer/common_factor_rt.hpp:82-108 | every common divisor divides it |
| `Gcd.GcdEuclidean` | scenargie_simulator/2.1/source/boost/integer/common_factor_rt.hpp:82-108 | remainders in turn, with truncating division and operands of any sign, end at the gcd up to sign |
| `Gcd.GcdInteger` | scenargie_simulator/2.1/source/boost/integer/common_factor_rt.hpp:111-125 | the non-negative gcd of integers of any sign, of whatever range; if and only if both are zero or the least value, and not both zero, it is the least value instead |
| `Gcd.GcdOverflowsIff` | scenargie_simulator/2.1/source/boost/integer/common_factor_rt.hpp:111-125 | exactly for those arguments is the gcd out of range, by one |
| `Gcd.GcdBinary` | scenargie_simulator/2.1/source/boost/integer/common_factor_rt.hpp:128-188 | shifting and subtracting gives the same gcd, zero operands included |
| `Gcd.WhittleDown` | scenargie_simulator/2.1/source/boost/integer/common_factor_rt.hpp:152-181 | the two-element loop of the binary algorithm keeps the gcd while one operand stays odd |
| `Rational.Rational.constructor` | scenargie_simulator/2.1/source/boost/rational.hpp:151 | zero over one, in normal form |
| `Rational.Rational.FromInt` | scenargie_simulator/2.1/source/boost/rational.hpp:153 | an integer over one, in normal form |
| `Rational.Rational.Normalize` | scenargie_simulator/2.1/source/boost/rational.hpp:544-578 | for unbounded and for two's complement integers: a zero denominator is refused, a denominator that in lowest terms is the least value is refused, and any other pair ends in normal form, with the same value if and only if it is not a least numerator over a negative denominator in lowest terms |
| `Rational.LeastNumeratorKeepsSign` | scenargie_simulator/2.1/source/boost/rational.hpp:564-568 | in eight bits −128/−3 is accepted and ends as the normal pair −128/3, another number |
| `Rational.LeastDenominatorIsRefused` | scenargie_simulator/2.1/source/boost/rational.hpp:573-574 | in eight bits 1/−128 is refused |
| `Rational.Rational.Assign` | scenargie_simulator/2.1/source/boost/rational.hpp:257-261 | assignment normalises a temporary first, with the same outcomes: after a refused one the number is as it was |
| `Rational.Rational.AddAssign` | scenargie_simulator/2.1/source/boost/rational.hpp:278-311 | the exact sum in lowest terms with positive denominator, also when the operand is the object itself |
| `Rational.Rational.SubtractAssign` | scenargie_simulator/2.1/source/boost/rational.hpp:313-330 | the exact difference in lowest terms with positive denominator |
| `Rational.Rational.MultiplyAssign` | scenargie_simulator/2.1/source/boost/rational.hpp:332-345 | the exact product in lowest terms with positive denominator, from cross gcds only |
| `Rational.Rational.DivideAssign` | scenargie_simulator/2.1/source/boost/rational.hpp:347-374 | the exact quotient in normal form, or a refused division by zero that changes nothing |
| `Rational.Rational.AddInt` | scenargie_simulator/2.1/source/boost/rational.hpp:185 | adding an integer stays in normal form without any gcd |
| `Rational.Rational.SubtractInt` | scenargie_simulator/2.1/source/boost/rational.hpp:186 | subtracting an integer stays in normal form without any gcd |
| `Rational.Rational.MultiplyInt` | scenargie_simulator/2.1/source/boost/rational.hpp:377-387 | the exact product with an integer in normal form |
| `Rational.Rational.DivideInt` | scenargie_simulator/2.1/source/boost/rational.hpp:389-410 | the exact quotient by an integer in normal form, or a refusal that changes nothing |
| `Rational.SumReduced` | scenargie_simulator/2.1/source/boost/rational.hpp:279-311 | dividing only gcd(numerator, g) out of the sum leaves lowest terms |
| `Rational.ProductReduced` | scenargie_simulator/2.1/source/boost/rational.hpp:333-345 | cross reduction leaves lowest terms |
| `Rational.Rational.LessThan` | scenargie_simulator/2.1/source/boost/rational.hpp:413-495 | true exactly when num · r.den < r.num · den, for any signs; the loop ends because the denominators strictly decrease, and no value formed on the way leaves the two's complement range of the operands |
| `Rational.OrderStep` | scenargie_simulator/2.1/source/boost/rational.hpp:455-495 | one turn of the comparison: what the quotients, the end of an expansion, or the reciprocals of the remainders decide |
| `Rational.Rational.LessThanInt` | scenargie_simulator/2.1/source/boost/rational.hpp:497-513 | the floor of the number alone decides the comparison with an integer |
| `Rational.Rational.GreaterThanInt` | scenargie_simulator/2.1/source/boost/rational.hpp:515-519 | the mirrored comparison |
| `Rational.Rational.Equals` | scenargie_simulator/2.1/source/boost/rational.hpp:521-526 | comparing fields decides equality of the values |
| `Rational.Rational.EqualsInt` | scenargie_simulator/2.1/source/boost/rational.hpp:528-533 | the same for an integer |
| `Rational.NormalFormUnique` | scenargie_simulator/2.1/source/boost/rational.hpp:521-526 | two normal pairs have the same value if and only if they are the same pair |
| `Rational.TotalOrder` | scenargie_simulator/2.1/source/boost/rational.hpp:413-533 | neither of two normal forms is less exactly when they are the same pair |
| `Rational.LessTransitive` | scenargie_simulator/2.1/source/boost/rational.hpp:413-495 | less is transitive |
| `Rational.InnerGcdIsGcd` | scenargie_simulator/2.1/source/boost/rational.hpp:230-253 | the recursive gcd of the normal-form test is the gcd, up to sign |
| `Rational.IsNormalizedIffNormal` | scenargie_simulator/2.1/source/boost/rational.hpp:230-253 | the test accepts exactly the pairs in lowest terms with positive denominator |
| `StaSpec.Best` | scenargie_simulator/2.1/source/dot11/dot11_mac_sta.h:861-876 | there is a best access point: the strongest average above the lowest value, the lowest address among equals |
| `StaSpec.BestUnique` | scenargie_simulator/2.1/source/dot11/dot11_mac_sta.h:861-876 | and only one |
| `StaRuns.OnlineWasEarned` | scenargie_simulator/2.1/source/dot11/dot11_mac_sta.cpp:136-261 | for every run, whenever the station is online its last three handshake actions are authentication, association request and link up with that very access point |
| `StaRuns.LinkSignalsAlternate` | scenargie_simulator/2.1/source/dot11/dot11_mac_sta.cpp:180-237 | for every run, the network layer hears up and down strictly in turn and has last heard up exactly when the station is online |
| `StaRuns.NeverHandsOver` | scenargie_simulator/2.1/source/dot11/dot11_mac_sta.cpp:463-487 | for every run, no reassociation request and no power-save announcement is ever sent |
| `StaRuns.EveryRunIsSensible` | scenargie_simulator/2.1/source/dot11/dot11_mac_sta.cpp:136-261 | for every run: link signals alternate and agree with being online, the last handshake is that of the current phase, and nothing is handed over or put to sleep |
| `StaRuns.ScanVisitsEachChannel` | scenargie_simulator/2.1/source/dot11/dot11_mac_sta.cpp:387-413 | whatever frames arrive between the timeouts of a scan, the radio visits the remaining channels one by one, in increasing order, each once |
| `StaRuns.TuneEachAt` | scenargie_simulator/2.1/source/dot11/dot11_mac_sta.h:839-849 | what that list of channels contains at each place |
| `StaRuns.AuthenticationGoesToTheBest` | scenargie_simulator/2.1/source/dot11/dot11_mac_sta.h:859-885 | an authentication is only started at the end of a scan, with the best access point heard, one that meets the association threshold, on its channels |
| `StaRuns.PatienceRuns` | scenargie_simulator/2.1/source/dot11/dot11_mac_sta.cpp:387-413 | whatever frames come in between, every timeout of a station that is not and does not come online brings it one closer to the end of a scan |
| `StaRuns.TimersReachAuthentication` | scenargie_simulator/2.1/source/dot11/dot11_mac_sta.cpp:345-413 | progress for every run: at its `Patience`-th timeout a station authenticates with the access point chosen from all it has heard by then, or scans again if none is acceptable, unless it came online on the way |
| `StaRuns.HeardIsHistory` | scenargie_simulator/2.1/source/dot11/dot11_mac_sta.h:766-815 | for every run, an access point is known exactly if it sent a beacon of the station's network, and its time stamp is that of the last one |
| `StaRuns.LinkCheckDetectsSilence` | scenargie_simulator/2.1/source/dot11/dot11_mac_sta.h:721-748 | for every run, a link check gives the access point up exactly when it sent no beacon of the station's network within the interval |
| `StaLaws.StoredIsHistory` | scenargie_simulator/2.1/source/dot11/dot11_mac_sta.h:765-813 | for every run, an access point is known exactly if it sent a beacon of the station's network; its stored average is its first strength averaged with each later one in order, its last strength and channels are those of its last beacon |
| `StaLaws.ChosenIff` | scenargie_simulator/2.1/source/dot11/dot11_mac_sta.h:878-885 | a station without an access point chooses one if and only if some average meets the threshold and is above the lowest value, and then the highest, the lowest address deciding |
| `StaLaws.DecisionIsHistory` | scenargie_simulator/2.1/source/dot11/dot11_mac_sta.h:853-885 | at the deciding timeout of every run: the station authenticates if and only if some access point's beacons, averaged in order, were strong enough, and then with the best of them on the channels of its last beacon; otherwise it scans again |
| `StaLaws.HandshakeCompletes` | scenargie_simulator/2.1/source/dot11/dot11_mac_sta.cpp:148-196 | an authentication frame and a positive response before the timeouts, whatever other frames come in between, bring the station online with the granted id, with one request sent and the link reported once |
| `StaLaws.OnlineSince` | scenargie_simulator/2.1/source/dot11/dot11_mac_sta.cpp:165-196 | for every run, a station that is online was brought there by a response of that access point to its request, has the id of that response, and has been online with it ever since |
| `StaLaws.ApIsHeard` | scenargie_simulator/2.1/source/dot11/dot11_mac_sta.cpp:442-459 | for every run, the access point in use is one that was heard |
| `StaLaws.OnlineEndsIff` | scenargie_simulator/2.1/source/dot11/dot11_mac_sta.cpp:225-249 | for every run, an association ends exactly by a silent link check, a disassociation frame of the access point, or a beacon that brings its average below the threshold; what is then sent, to whom, what is remembered and when the next scan is due |
| `StaLaws.TimerIsSet` | scenargie_simulator/2.1/source/dot11/dot11_mac_sta.cpp:286-289 | every timeout and every change of phase sets the timer, for the interval of the new phase; nothing else does |
| `StaLaws.TimeoutStartsScan` | scenargie_simulator/2.1/source/dot11/dot11_mac_sta.h:330-362 | the timeout of a station that is idle or waits for an answer starts a scan on channel 0 and changes nothing else it knows |
| `StaLaws.OthersAreIgnored` | scenargie_simulator/2.1/source/dot11/dot11_mac_sta.cpp:143-203 | frames that are none of the station's business in its phase change nothing and send nothing |
| `StaLaws.BeaconsOnlyInform` | scenargie_simulator/2.1/source/dot11/dot11_mac_sta.cpp:99-132 | a beacon that does not end the association changes nothing but what is heard |
| `StaLaws.LastApIs` | scenargie_simulator/2.1/source/dot11/dot11_mac_sta.cpp:239 | the access point last left is remembered until the next authentication |
| `StaLaws.TunedIsLast` | scenargie_simulator/2.1/source/dot11/dot11_mac_sta.cpp:281 | for every run, the radio is where it was last tuned to |
| `ScanningController.ScanIsComplete` | scenargie_simulator/2.1/source/dot11/dot11_mac_sta.h:839-849 | one scan hands out every channel below the number of channels except the current primary one, each once, in increasing order |
| `ScanningController.BestIsTakenIff` | scenargie_simulator/2.1/source/dot11/dot11_mac_sta.h:878-899 | a scan sends the station to an access point if and only if one heard meets the threshold and, where there is a current one, improves on it by the margin; it is then the best heard |
| `ScanningController.GivesUpIff` | scenargie_simulator/2.1/source/dot11/dot11_mac_sta.h:888-890 | a scan makes a station give up its access point if and only if nobody heard meets the threshold |
| `ScanningController.FindBest` | scenargie_simulator/2.1/source/dot11/dot11_mac_sta.h:863-876 | the loop over the entries in address order finds the best access point |
| `ScanningController.ChannelScanningController.constructor` | scenargie_simulator/2.1/source/dot11/dot11_mac_sta.h:615-634 | a new controller has heard nobody and has no access point |
| `ScanningController.ChannelScanningController.SetCurrentChannelAndAccessPoint` | scenargie_simulator/2.1/source/dot11/dot11_mac_sta.h:703-715 | a new current access point withdraws any candidate and any wish to leave |
| `ScanningController.ChannelScanningController.ClearCurrentChannelAndAccessPoint` | scenargie_simulator/2.1/source/dot11/dot11_mac_sta.h:487-491 | the same with no access point |
| `ScanningController.ChannelScanningController.CalculateLinkStatus` | scenargie_simulator/2.1/source/dot11/dot11_mac_sta.h:720-748 | the wish to leave is raised exactly when no beacon of the current access point came within the interval |
| `ScanningController.ChannelScanningController.StartScanSequence` | scenargie_simulator/2.1/source/dot11/dot11_mac_sta.h:752-762 | a scan starts at the first channel that is not the current primary one |
| `ScanningController.ChannelScanningController.ReceiveBeaconInfo` | scenargie_simulator/2.1/source/dot11/dot11_mac_sta.h:765-815 | a beacon gives a new entry its own strength as average and smooths that of a known one, with the beacon's channels; only a repeated beacon of the current access point decides on leaving, by its average |
| `ScanningController.ChannelScanningController.GetCurrentAccessPointRssiDbm` | scenargie_simulator/2.1/source/dot11/dot11_mac_sta.h:818-829 | the average of the current access point, or the lowest value |
| `ScanningController.ChannelScanningController.ChooseAccessPoint` | scenargie_simulator/2.1/source/dot11/dot11_mac_sta.h:853-899 | the end of a scan sets candidate, channels and the wish to leave as `Decide` says |
| `ScanningController.ChannelScanningController.GetChannelAndDurationToScan` | scenargie_simulator/2.1/source/dot11/dot11_mac_sta.h:833-902 | each call hands out the next channel of the scan, or reports the end exactly when there is none left |
| `ScanningController.ChannelScanningController.GetAccessPointToSwitchTo` | scenargie_simulator/2.1/source/dot11/dot11_mac_sta.h:906-914 | the candidate, which must exist |
| `StaController.StaManagementController.constructor` | scenargie_simulator/2.1/source/dot11/dot11_mac_sta.cpp:15-53 | a new station is idle with exactly one pending event, its initialisation |
| `StaController.StaManagementController.StartChannelScanning` | scenargie_simulator/2.1/source/dot11/dot11_mac_sta.cpp:265-291 | a scan starts on channel 0 and its first answer is never "done" |
| `StaController.StaManagementController.StartAuthentication` | scenargie_simulator/2.1/source/dot11/dot11_mac_sta.cpp:442-459 | the station waits for authentication with one timeout pending |
| `StaController.StaManagementController.SwitchToAnotherAccessPoint` | scenargie_simulator/2.1/source/dot11/dot11_mac_sta.cpp:321-341 | buffered packets are requeued, the radio is tuned and the scanning controller forgets the candidate |
| `StaController.StaManagementController.FinishChannelScanning` | scenargie_simulator/2.1/source/dot11/dot11_mac_sta.cpp:345-365 | after a scan without an access point exactly one of the first two arms is taken; the assert-false arm is unreachable |
| `StaController.StaManagementController.ChannelScanTimedOut` | scenargie_simulator/2.1/source/dot11/dot11_mac_sta.cpp:387-413 | one `AfterTimer` step of the five-phase machine, one timer pending afterwards |
| `StaController.StaManagementController.AuthenticationTimeout` | scenargie_simulator/2.1/source/dot11/dot11_mac_sta.h:330-344 | the same, and its assertions hold |
| `StaController.StaManagementController.ProcessAssociateFailure` | scenargie_simulator/2.1/source/dot11/dot11_mac_sta.h:347-362 | the same |
| `StaController.StaManagementController.CheckLinkStatus` | scenargie_simulator/2.1/source/dot11/dot11_mac_sta.h:398-427 | the same; no candidate is pending, so the switching arm is unreachable, and no background scan is due |
| `StaController.StaManagementController.Disassociate` | scenargie_simulator/2.1/source/dot11/dot11_mac_sta.cpp:499-524 | the link check is cancelled, the layers are told, both objects forget the access point, and a new scan is scheduled |
| `StaController.StaManagementController.AssociateWithAccessPoint` | scenargie_simulator/2.1/source/dot11/dot11_mac_sta.cpp:463-495 | either request is sent and its failure timeout scheduled |
| `StaController.StaManagementController.Fire` | scenargie_simulator/2.1/source/dot11/dot11_mac_sta.h:176-258 | in every reachable state, the only event that can fire is the state's own timer, at its due time; its handler's assertions hold and it makes exactly the machine's timer step |
| `StaController.StaManagementController.ProcessAuthenticationFrame` | scenargie_simulator/2.1/source/dot11/dot11_mac_sta.cpp:148-164 | accepted only while waiting; the timeout is cancelled |
| `StaController.StaManagementController.ProcessAssociationResponse` | scenargie_simulator/2.1/source/dot11/dot11_mac_sta.cpp:165-196 | accepted only from the access point asked; from then on both objects name the same access point |
| `StaController.StaManagementController.ProcessDisassociation` | scenargie_simulator/2.1/source/dot11/dot11_mac_sta.cpp:225-249 | accepted only from the current access point; a new scan is scheduled at once |
| `StaController.StaManagementController.ProcessBeaconFrame` | scenargie_simulator/2.1/source/dot11/dot11_mac_sta.cpp:99-132 | a beacon may end the association but never switches it to another access point |
| `StaController.StaManagementController.ProcessManagementFrame` | scenargie_simulator/2.1/source/dot11/dot11_mac_sta.cpp:136-261 | every frame makes exactly the machine's step, keeps exactly one timer pending and the two objects in agreement; the reassociation wait is never entered |
| `StaReplay.Replay` | scenargie_simulator/2.1/source/dot11/dot11_mac_sta.cpp:136-261 | over every run of frames and due timers the two objects go through exactly the states, and send exactly the actions, of the five-phase machine |
| `StaReplay.ReplayFromStart` | scenargie_simulator/2.1/source/dot11/dot11_mac_sta.cpp:15-261 | from construction over every such run, the objects told the network layer up and down strictly in turn, are online only by the last handshake, and never sent a reassociation request or a power-save announcement |
| `ApAssociation.FreeIffRoom` | scenargie_simulator/2.1/source/dot11/dot11_mac_ap.h:537-546 | some id in 1..2007 is free if and only if fewer than 2007 stations are associated |
| `ApAssociation.PickIsFree` | scenargie_simulator/2.1/source/dot11/dot11_mac_ap.h:532-547 | a newcomer's id is in 1..2007, and held by nobody if and only if fewer than 2007 are associated |
| `ApAssociation.NextKeepsInv` | scenargie_simulator/2.1/source/dot11/dot11_mac_ap.h:527-553 | every request keeps ids in range, pairwise distinct and at most the counter |
| `ApAssociation.IdsStayDistinct` | scenargie_simulator/2.1/source/dot11/dot11_mac_ap.h:527-553 | the same for every sequence of requests |
| `ApAssociation.IdIsKept` | scenargie_simulator/2.1/source/dot11/dot11_mac_ap.cpp:24-26 | a station keeps its id over any requests until it disassociates |
| `ApAssociation.AssociatedIff` | scenargie_simulator/2.1/source/dot11/dot11_mac_ap.cpp:94-101 | for every sequence of requests, a station is associated exactly if some request let it in, being associated already or with fewer than 2007 associated, and no later one took it out |
| `ApAssociation.AdmissionIff` | scenargie_simulator/2.1/source/dot11/dot11_mac_ap.cpp:17-41 | a request lets in exactly whom it finds or has room for, and touches no other station |
| `ApAssociation.DisassociationFrees` | scenargie_simulator/2.1/source/dot11/dot11_mac_ap.cpp:94-101 | a station that disassociates is gone, its id is held by nobody, and no other station is touched |
| `ApAssociation.PickIsLeast` | scenargie_simulator/2.1/source/dot11/dot11_mac_ap.h:532-546 | ids are new while there are any; then a newcomer gets the least free one |
| `ApAssociation.FreedIdComesBack` | scenargie_simulator/2.1/source/dot11/dot11_mac_ap.h:536-546 | with a full table, when one station leaves the next newcomer gets its id |
| `ApAssociation.NoEarlyReuse` | scenargie_simulator/2.1/source/dot11/dot11_mac_ap.h:532-535 | the first 2007 newcomers get 1, 2, 3, … whoever leaves in between |
| `ApAssociation.CounterCountsIssued` | scenargie_simulator/2.1/source/dot11/dot11_mac_ap.h:532-535 | the counter is the number of ids issued, up to 2007 |
| `ApAssociation.Dot11ApManagementController.constructor` | scenargie_simulator/2.1/source/dot11/dot11_mac_ap.h:265-273 | no station, no id in use |
| `ApAssociation.Dot11ApManagementController.FindFree` | scenargie_simulator/2.1/source/dot11/dot11_mac_ap.h:537-546 | the search finds the least id not in use, or none exactly when all are |
| `ApAssociation.Dot11ApManagementController.AddNewAssociatedStaRecord` | scenargie_simulator/2.1/source/dot11/dot11_mac_ap.h:527-553 | a newcomer is entered with the id `Pick` gives exactly when there is room; in-use bits stay set exactly for held ids |
| `ApAssociation.Dot11ApManagementController.ProcessAssociationRequestFrame` | scenargie_simulator/2.1/source/dot11/dot11_mac_ap.cpp:17-41 | the response carries the id the table holds, old or new |
| `ApAssociation.Dot11ApManagementController.ProcessReassociationRequestFrame` | scenargie_simulator/2.1/source/dot11/dot11_mac_ap.cpp:45-72 | the same, with the other access point notified first |
| `ApAssociation.Dot11ApManagementController.ProcessDisassociationFrame` | scenargie_simulator/2.1/source/dot11/dot11_mac_ap.cpp:94-101 | entry and bit are removed together, which frees the id (`DisassociationFrees`); strangers are ignored |
| `Tokenizer.EscapedListSeparator.constructor` | scenargie_simulator/2.1/source/boost/token_functions.hpp:152-159 | a new tokenizer owes no trailing token |
| `Tokenizer.EscapedListSeparator.Reset` | scenargie_simulator/2.1/source/boost/token_functions.hpp:159 | a reset one neither |
| `Tokenizer.EscapedListSeparator.DoEscape` | scenargie_simulator/2.1/source/boost/token_functions.hpp:126-148 | an escape at the end and an unknown one are the two errors; n is looked at first |
| `Tokenizer.EscapedListSeparator.Call` | scenargie_simulator/2.1/source/boost/token_functions.hpp:161-198 | one call reads exactly the next token of the text, leaves the position behind it, and remembers whether a delimiter ended it |
| `Tokenizer.TokenIterator.Initialize` | scenargie_simulator/2.1/source/boost/token_iterator.hpp:67-72 | the iterator starts at the first token, or at the end for an empty text |
| `Tokenizer.TokenIterator.Increment` | scenargie_simulator/2.1/source/boost/token_iterator.hpp:50-53 | it moves to the next token, to the end, or to the error |
| `Tokenizer.Collect` | scenargie_simulator/2.1/source/boost/token_iterator.hpp:50-77 | a loop over the iterator gives exactly the tokens of the text, or its error, and terminates |
| `Spelling.ScanPiece` | scenargie_simulator/2.1/source/boost/token_functions.hpp:126-196 | a character that stands for itself inside or outside quotes, an escaped one, delimiters included, and a quote each add to the token what they mean |
| `Spelling.TokensAreMeanings` | scenargie_simulator/2.1/source/boost/token_functions.hpp:161-198 | for all separators and every list of fields, written with any mixture of plain, escaped and quoted stretches, the tokens are the meanings of the fields |
| `Spelling.EveryTextIsWritten` | scenargie_simulator/2.1/source/boost/token_functions.hpp:161-198 | every text that is accepted is written so |
| `Spelling.AcceptedTextsHaveMeaning` | scenargie_simulator/2.1/source/boost/token_functions.hpp:161-198 | so the tokens of every accepted text are the meanings of its fields |
| `Tokenizer.TokensOfPrinted` | scenargie_simulator/2.1/source/boost/token_functions.hpp:126-198 | what any non-empty list of fields, quoted, escaped and joined, is read back as |
| `Tokenizer.RoundTrip` | scenargie_simulator/2.1/source/boost/token_functions.hpp:126-198 | it is read back as itself if and only if not both: n is an escape or quote character, and some field contains an n |
| `Tokenizer.QuotedByLetterN` | scenargie_simulator/2.1/source/boost/token_functions.hpp:130-133 | a concrete list that comes back changed |
| `Tokenizer.TokensAreCounted` | scenargie_simulator/2.1/source/boost/token_functions.hpp:161-198 | the tokenizer accepts exactly the texts whose escapes are complete and known, and gives one token more than there are delimiters that are neither quoted nor escaped |
| `Tokenizer.CanonicalText` | scenargie_simulator/2.1/source/boost/token_functions.hpp:161-198 | printing what was read from any non-empty text gives a text with the same tokens, if and only if not both: n is an escape or quote character, and some token contains an n |

## Left out

- `RetrieveFramesToSendUpStack` (dot11_incoming_buffer.h:556-574): it pops what `HasFramesToSendUpStack` reports, which is proved to be nothing between steps.
- `AddBlockAckSession` and `DeleteBlockAckSession`: declared in the source without a body, so sessions start only with a first request and never end.
- UpdateReceivedFrameBitmap: the two 64-bit counters are unbounded here; numbers below L + 64, and held frames where it drains, are required as the source asserts them.
- AcceptData: `std::priority_queue` is a sorted sequence, and frames are values of an arbitrary type, so moving out of the queue's top is not captured.
- AddAssign: intermediate values are unbounded integers, here and in the other assignment operators; only the comparisons are proved to stay in a bounded range.
- Normalize: operations on the least value of a word that C++ leaves undefined (its negation, its remainder by −1) have their two's complement results.
- Rational stream input and output, conversions and the exception class; a refused operation is an outcome value.
- GcdBinary: operands are unbounded, so particular machine widths are not modelled.
- Cancel: the engine's `CancelEvent` is declared in simulator/scensim_engine.h:355 but its body is not part of this model's sources; it is assumed to take the event out of the queue and to null the ticket, as `Clear` does.
- InitTable: the static table that all engines of a template instance share is an object passed to each engine.
- AugmentedCrc: widths below a byte are outside its precondition, because the source shifts by Bits − 8.
- ReceiveBeaconInfo: the network name of an entry and the conversion between dB and linear strength are left out; the average is an arbitrary function of the new strength and the old average, over reals.
- ProcessManagementFrame: the last channel id, frame aggregation settings and the power-save listen interval of the station are not modelled.
- `SwitchToAccessPoint`: not called in the runs that are modelled; it could not cancel the initialisation events that are scheduled without a ticket (dot11_mac_sta.cpp:243-246, 520-522).
- UpdateBackgroundScanEventStartTime: only the case that occurs, that no background scan is due; background scanning itself (dot11_mac_sta.cpp:295-318, 366-378, 417-438) is proved unreachable and otherwise left out.
- `ReceiveOutgoingFrameDeliveryResults`: it acts on null frames only, and none is ever sent (`NeverHandsOver`).
- ProcessReassociationRequestFrame: aggregation settings and the contents of the notification are left out, here and for association requests; after `TooManyStations` the source stops, the model leaves the table as it was.
- Access point power-save buffering, beacons and the delay of authentication answers.
- `TrafficIndicationBitMap`: its operations do not implement a set of ids, so there is no set property to prove.
- Effective SINR tables: floating-point look-ups in partly unsorted tables.
- Equality of two token iterators and copies of the tokenizer function; an exception is an error result.
- Other Boost headers, the simulation engine, parameter files and packets.
