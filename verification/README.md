# A verified model of the systems-engineering workbook

The repository is a workbook of C and C++ exercises that ends in a limit order book, a
matching engine and a FIX framer. This project models its stateful core in Dafny and proves
what the code, its headers and its tests promise. `dafny verify dfyconfig.toml` checks it all.

Two kinds of source are modelled, and the difference matters:

- **Code**: the body exists and is followed branch by branch. The string functions, the linked
  list, the growable vector, `ScopedFd`, `Buffer`, the float bit functions, the FIX printer
  `build_fix_message`, and the `size`/`empty`/`full` formulas of the SPSC ring.
- **Design**: the body is a stub, but the header states the state, the algorithm and the rules,
  and the tests pin the results. The order book, the matching engine, the FIX parser (whose
  loop is written out line by line in a comment), the seqlock, and `push`/`pop` of the SPSC ring.

## What is proved

**Order book and matching engine (design).** `ReferenceBook` is an eager engine: each side is
one sequence of live orders in priority order, and cancelling removes an order at once. It has
no queues, no index and no stale entries. `LazyEngine` is the engine the header describes, as a
function: a map of live orders, per-level FIFO queues whose dead entries are skipped, and a
matching loop. The class `MatchingEngine`, over the price-level index, is proved to be that
function for every well-formed stream, whatever ids it uses; the loop always terminates, never
meets an empty queue and never leaves crossed quotes. On the reference, for every stream: the
book stays sorted and uncrossed, stands in strict (price, arrival) order, fills are a closed
form of that order, and quantity is conserved order by order and in total. The index of
`LimitOrderBook` is proved equal to the sum over the map of live orders after every operation.

Lazy deletion is meant to be eager deletion done later. That is true of streams that add each id
once, and false of some streams that reuse an id: in `ReusedIdJumpsTheQueue` sell 1 is cancelled,
sell 2 arrives, id 1 is used again, and a buy trades with 1 instead of 2. The exact condition is
`RestsCleanly`, read off the queues when the order comes to rest: among the leftover entries of
its id, none stands in its own queue ahead of the first entry of an order resting there, none is
in the queue of a better price of its side, and none is in a queue of the other side whose price
it does not cross. Other leftover entries do no harm. `RunAgreesIffClean`: after every prefix of
a stream the two engines have emitted the same fills and agree, in fills and in book, over every
continuation with fresh ids, if and only if each add of the stream rests cleanly. The id of an
order that is still live is refused by `add_order`, and then nothing is queued.

Other hypotheses of the design, all explicit: quantities are positive and prices non-negative,
and the loop tests that a side is not empty because -1 means "no price". A filled order at the
front of a queue is popped at once; a partly filled one keeps its place.

**FIX framer and fields (design and code).** `feed` is a function of all bytes fed since the
last reset, whatever the fragmentation; no byte is lost or reordered. Printing then framing is
the identity if and only if every body length fits an int; printing then parsing is the
identity on the kept fields if and only if no kept value holds a SOH byte, and exactly tags 8, 9
and 10 are not kept. Parsing accepts a message if and only if all its tokens are fields and the
first tag 10 reads as the byte sum of what precedes the last "10="; so a wrong checksum, one
changed byte or one malformed token is rejected, whatever the rest of the message. `std::stoi` is
modelled in full (white space, sign, trailing text, both exceptions). Two findings: a body
length over 2^31 - 1 makes the framer throw, and a negative body length that cancels the
framing bytes (`StallExample`) makes its loop deliver empty messages for ever.
`SpinsIffLengthCancels` gives the exact condition for a whole stream, at some frame boundary of
it, and `NoNegativeNeverSpins` one that is easy to test. The literal `"\x019="` in the comment
is a greedy hex escape in C++; the three bytes SOH, '9', '=' are modelled, as the `+ 3` after it
shows.

**Seqlock (design).** One writer and any number of readers, one word and one counter access at
a time, in any interleaving: an accepted read returns the latest completed write, so the lock
refines an atomic register, unless the 64-bit counter went all the way round during the read.
Nothing gets stuck: a write always completes by its own steps, a reader waits only while a write
is in progress and retries only if the counter moved, and a read that nothing disturbs is
accepted with the latest value at its first attempt (`ReadCompletes`).
The bound is tight (`SafeIffNoFullTurn`): accepted reads within d increments are all right if
and only if d < 2^64, and `WrapAroundTears` builds the run of exactly 2^63 writes after which a
torn value is accepted.

**SPSC ring (design and code).** In every interleaving of the atomic steps of `push` and `pop`:
first in first out, no unread slot is overwritten, at most N - 1 values, and a failed call was
right to fail. Each call ends within four steps of its own thread, wherever the other stands: a
push takes effect if fewer than N - 1 values are held and fails if N - 1 are, a pop takes the
oldest value if there is one. The queries load the two indices separately. `size` is the number of pushes seen
less the number of pops seen, modulo N; called by the producer or by the consumer it is the
number of values held at the moment the query loads the other thread's index. For a third
thread it is right about a moment if and only if the pushes and pops it missed cancel modulo N
(`QueryExactIff`), and `OutsideObserverMisled` is a run in which it sees a size of 2 although
the ring never holds more than one value. The compile-time test admits the powers of two and
also 0; in a ring of 0 slots no push gets past its test, `empty` holds and `full` never does.

**Strings, linked list, vector, ownership (code).** The string functions refine operations on
texts; `my_strcmp` is the dictionary order and `str_is_palindrome` holds exactly of the texts
that `str_reverse` leaves alone. The heap chain refines a sequence and frees each node once. The
vector refines a stack; all its reallocations together copy fewer than two elements per push.
Each time a descriptor is wrapped it is later closed once or released once, and every allocation
of a `Buffer` is freed once, self-moves included. Findings: a push to a vector of capacity 0
stores out of bounds, and only then; assigning a `Buffer` to itself keeps its contents only if
they are all zero.

**Float bits (code).** With an exact decoding into units of 2^-149, `float_twice` doubles up to
stored exponent 253 and at 254 gives infinity only for a zero fraction, a NaN otherwise; n
doublings stay finite if and only if 2^n times the magnitude is below 2^277 units.
`float_half` is exact from exponent 2 and wrong at exponent 1 except for one fraction;
`HalfUndoesTwice` lists exactly the inputs on which the two are inverse.

## Files

| file | part |
|---|---|
| `Basics`, `OrderTypes` | shared notions and the vocabulary of the order book |
| `PriceLevels`, `OrderBook`, `MatchingEngine` | the order book and engine as classes |
| `ReferenceBook`, `ReferenceTheorems`, `PriceTimePriority`, `Conservation` | the eager engine and its theorems |
| `LazyEngine`, `LazyRefinement`, `LazyTheorems` | the lazy engine as a function, and its refinement of the eager one |
| `LazyEntries`, `LazyExactness`, `LazyReuse` | what runs do to the queues, and exactly when an id may be used again |
| `FixBytes`, `FixFramer`, `FixMessages`, `FixParsing` | FIX: framing, printing, parsing and the round trips |
| `FixRejection`, `FixPrinting` | what parsing accepts and rejects, and what printing prints, on bytes |
| `SeqLock`, `SpscQueue`, `SpscQueries` | concurrency protocols as state machines, their safety |
| `SeqLockProgress`, `SpscProgress` | what their threads can always finish |
| `CStrings`, `LinkedList`, `IntVec`, `Ownership`, `Buffers`, `FloatBits` | implemented C and C++ |

## Model

| member | source | states |
|---|---|---|
| MatchingEngines.MatchingEngine.ProcessEvents | 06-order-book/exercises/ex3-matching-engine/matching_engine.hpp:61-69 | for every well-formed stream the class is the lazy engine; from a state that stands for a reference book, a stream whose adds rest cleanly appends exactly the reference fills and reaches its book; both counters advance by the events and the fills |
| MatchingEngines.MatchingEngine.ProcessEvent | 06-order-book/exercises/ex3-matching-engine/matching_engine.hpp:56-59 | whatever id an event uses, its fills are those of the eager reference, and the state it leaves stands for the reference book if an add rests cleanly |
| MatchingEngines.MatchingEngine.Match | 06-order-book/exercises/ex3-matching-engine/matching_engine.hpp:45-51 | the matching loop terminates on every state, never meets an empty queue, and is the lazy loop whose fills and book MatchRefines ties to the greedy sweep |
| MatchingEngines.MatchingEngine.FillTop | 06-order-book/exercises/ex3-matching-engine/matching_engine.hpp:48-51 | a full fill cancels the passive order and pops its entry, a partial fill reduces it in place; index and map stay in agreement |
| MatchingEngines.MatchingEngine.PopDeadFront | 06-order-book/exercises/ex3-matching-engine/matching_engine.hpp:41-43 | skipping a dead entry changes that queue alone |
| MatchingEngines.MatchingEngine.DropOrder | 06-order-book/exercises/ex3-matching-engine/matching_engine.hpp:39-43 | a cancel leaves its queue entry behind |
| MatchingEngines.MatchingEngine.ResizeOrder | 06-order-book/exercises/ex3-matching-engine/matching_engine.hpp:12-24 | a modify event changes the quantity in place, cancels at 0 or less, ignores an unknown id |
| MatchingEngines.MatchingEngine.RestRemainder | 06-order-book/exercises/ex3-matching-engine/matching_engine.hpp:52-52 | the unfilled remainder enters the book and the back of its queue; a live id is refused and nothing is queued |
| MatchingEngines.MatchingEngine.QuotesNeverCross | 06-order-book/exercises/ex3-matching-engine/test_matching_engine.cpp:85-99 | best bid is below best ask whenever neither is -1 |
| MatchingEngines.MatchingEngine.QuotesAreReference | 06-order-book/exercises/ex3-matching-engine/matching_engine.hpp:69-69 | the quoted best prices are the tops of the reference book, -1 for an empty side |
| MatchingEngines.MatchingEngine.BookIsReference | 06-order-book/exercises/ex3-matching-engine/matching_engine.hpp:69-69 | the book a user reads has exactly the level quantities and the orders of the reference book |
| MatchingEngines.Replay | 06-order-book/exercises/ex3-matching-engine/test_matching_engine.cpp:249-264 | from a fresh engine: quotes never cross; if no id is added twice or each reuse is clean, the fills and quotes are those of the reference and quantity is conserved for every order |
| LazyEngine.BestHasFront | 06-order-book/exercises/ex3-matching-engine/matching_engine.hpp:45-47 | for every stream, ids reused or not, the queue of a non-empty side's best price has a front |
| LazyEngine.MatchExhausts | 06-order-book/exercises/ex3-matching-engine/matching_engine.hpp:45-52 | the loop only removes and reduces, and stops once the aggressor is exhausted or nothing live crosses its limit |
| LazyEngine.RunUncrossed | 06-order-book/exercises/ex3-matching-engine/test_matching_engine.cpp:85-99 | no stream, ids reused or not, leaves a live bid at or above a live ask |
| LazyRefinement.PopDeadRepresents | 06-order-book/exercises/ex3-matching-engine/matching_engine.hpp:41-43 | removing a dead front entry keeps what the queues stand for |
| LazyRefinement.DropRepresents | 06-order-book/exercises/ex3-matching-engine/matching_engine.hpp:39-43 | deleting from the map alone, whatever entries remain, is an eager removal |
| LazyRefinement.ResizeRepresents | 06-order-book/exercises/ex3-matching-engine/matching_engine.hpp:51-51 | every outcome of modify_order is the in-place change of the reference |
| LazyRefinement.RestRepresents | 06-order-book/exercises/ex3-matching-engine/matching_engine.hpp:40-41 | appending a cleanly resting id to its queue is insertion by priority |
| LazyRefinement.ServedPush | 06-order-book/exercises/ex3-matching-engine/matching_engine.hpp:40-43 | with leftover entries that overtake nobody, a level serves the new order last |
| LazyRefinement.FrontOfBest | 06-order-book/exercises/ex3-matching-engine/matching_engine.hpp:45-47 | the front of the best queue is dead or is the head of the reference side |
| LazyRefinement.LinkedUnique | 06-order-book/exercises/ex3-matching-engine/matching_engine.hpp:39-43 | queues and orders determine the reference book |
| LazyRefinement.LevelsMatch | 06-order-book/exercises/ex2-limit-order-book/order_book.hpp:22-24 | level sums over the hash map are level sums over the priority order |
| LazyTheorems.MatchRefines | 06-order-book/exercises/ex3-matching-engine/matching_engine.hpp:45-51 | from a linked state the lazy loop has the fills, remainder and book of the greedy sweep |
| LazyTheorems.StepRefines | 06-order-book/exercises/ex3-matching-engine/matching_engine.hpp:36-52 | the fills of any event agree with the reference; the state does if an add rests cleanly |
| LazyTheorems.RunRefines | 06-order-book/exercises/ex3-matching-engine/matching_engine.hpp:36-52 | over a whole clean stream the lazy engine emits the reference fills and stands for the reference book |
| LazyEntries.StepEntries | 06-order-book/exercises/ex3-matching-engine/matching_engine.hpp:40-43 | an event leaves each queue a suffix of what it was, plus the id of an add that rested |
| LazyEntries.RunOneEntry | 06-order-book/exercises/ex3-matching-engine/matching_engine.hpp:39-43 | a stream that adds each id once keeps at most one entry per id over all queues, and a live order's entry is in its own level |
| LazyEntries.FreshIsClean | 06-order-book/exercises/ex3-matching-engine/matching_engine.hpp:39-43 | adds whose ids no queue mentions always rest cleanly |
| LazyExactness.CleanIffAgrees | 06-order-book/exercises/ex3-matching-engine/matching_engine.hpp:41-43 | a remainder may take a used id iff its leftover entries are harmless: then, and only then, both engines agree over every fresh continuation |
| LazyExactness.AddAgreesIffClean | 06-order-book/exercises/ex3-matching-engine/matching_engine.hpp:41-52 | the same for an incoming add: its own fills always agree, the future does iff what it leaves rests cleanly |
| LazyExactness.RunAgreesIffClean | 06-order-book/exercises/ex3-matching-engine/matching_engine.hpp:36-52 | after every prefix of a stream both engines have emitted the same fills and agree over every fresh continuation iff each add rests cleanly |
| LazyReuse.ReusedIdJumpsTheQueue | 06-order-book/exercises/ex3-matching-engine/matching_engine.hpp:41-43 | a five-event stream on which the two engines fill different orders |
| ReferenceTheorems.SweepIsGreedy | 06-order-book/exercises/ex3-matching-engine/matching_engine.hpp:45-49 | position k trades iff its price is within the limit and the aggressor exceeds what stands ahead; at its own price, for min(its quantity, what is left) |
| ReferenceTheorems.GreedyFillsUnique | 06-order-book/exercises/ex3-matching-engine/matching_engine.hpp:45-49 | that closed form fixes the list of fills |
| ReferenceTheorems.SweepRestOk | 06-order-book/exercises/ex3-matching-engine/matching_engine.hpp:45-52 | after a sweep the aggressor is exhausted or nothing left crosses its limit, and the side stays well formed |
| ReferenceTheorems.StepOk | 06-order-book/exercises/ex3-matching-engine/matching_engine.hpp:45-52 | every event keeps the book sorted, duplicate-free, positive and uncrossed |
| ReferenceTheorems.RunOk | 06-order-book/exercises/ex3-matching-engine/matching_engine.hpp:34-52 | so does every stream, ids reused or not |
| ReferenceTheorems.RunRestsAddedIds | 06-order-book/exercises/ex3-matching-engine/matching_engine.hpp:36-37 | only ids the stream added can rest |
| PriceTimePriority.RunIsPriceTimeSorted | 06-order-book/exercises/ex3-matching-engine/README.md:22-22 | after any stream both sides stand in strict (price, arrival) order |
| PriceTimePriority.StepKeepsTime | 06-order-book/exercises/ex2-limit-order-book/order_book.hpp:38-42 | no event, modify included, changes the time priority of a resting order |
| Conservation.SweepConserves | 06-order-book/exercises/ex3-matching-engine/matching_engine.hpp:48-52 | aggressor quantity is fills plus remainder; each passive order falls by exactly its fills |
| Conservation.StepConserves | 06-order-book/exercises/ex3-matching-engine/matching_engine.hpp:48-52 | per event and order: change of resting quantity is intake minus trades |
| Conservation.RunConserves | 06-order-book/exercises/ex3-matching-engine/matching_engine.hpp:48-52 | per stream and order: intake is trades plus what rests |
| Conservation.RunConservesTotal | 06-order-book/exercises/ex3-matching-engine/matching_engine.hpp:48-52 | per stream: net intake is twice the filled quantity plus what rests |
| OrderBook.LimitOrderBook.AddOrder | 06-order-book/exercises/ex2-limit-order-book/order_book.hpp:28-31 | inserts and raises the level, refuses a duplicate id without effect, keeps the index in agreement |
| OrderBook.LimitOrderBook.CancelOrder | 06-order-book/exercises/ex2-limit-order-book/order_book.hpp:33-36 | removes and lowers the level, false for an unknown id, keeps the index in agreement |
| OrderBook.LimitOrderBook.ModifyOrder | 06-order-book/exercises/ex2-limit-order-book/order_book.hpp:38-42 | changes the quantity only, cancels at 0 or less, keeps the index in agreement |
| OrderBook.LimitOrderBook.FindOrder | 06-order-book/exercises/ex2-limit-order-book/order_book.hpp:54-55 | finds exactly the live orders |
| OrderBook.LimitOrderBook.QtyAt | 06-order-book/exercises/ex2-limit-order-book/order_book.hpp:44-48 | the level quantity is the sum of the live orders there |
| OrderBook.LimitOrderBook.LevelExistsIff | 06-order-book/exercises/ex2-limit-order-book/order_book.hpp:22-24 | a level exists iff some live order of positive quantity rests there |
| OrderBook.LimitOrderBook.Best | 06-order-book/exercises/ex2-limit-order-book/order_book.hpp:44-48 | best price is the maximum or minimum live price, -1 iff the side has no order |
| OrderBook.LiveQtySplit | 06-order-book/exercises/ex2-limit-order-book/order_book.hpp:22-24 | the sum over the hash map does not depend on visiting order |
| OrderBook.LiveQtyPositive | 06-order-book/exercises/ex2-limit-order-book/order_book.hpp:22-24 | a level sum is positive iff some live order rests there |
| OrderBook.TopIsBestPrice | 06-order-book/exercises/ex2-limit-order-book/order_book.hpp:44-48 | the top of an agreeing index is the best live price |
| PriceLevels.PriceLevelBook.Update | 06-order-book/exercises/ex1-price-levels/price_levels.hpp:36-38 | sets one level, 0 removes it, every other level of both sides is unchanged |
| PriceLevels.PriceLevelBook.BestBid | 06-order-book/exercises/ex1-price-levels/price_levels.hpp:40-41 | highest bid level, -1 if none |
| PriceLevels.PriceLevelBook.BestAsk | 06-order-book/exercises/ex1-price-levels/price_levels.hpp:43-44 | lowest ask level, -1 if none |
| PriceLevels.PriceLevelBook.Spread | 06-order-book/exercises/ex1-price-levels/price_levels.hpp:55-57 | the smallest ask-minus-bid gap, -1 if a side is empty |
| FixFramer.FixParser.Feed | 07-networking/exercises/ex3-fix-framer/fix_parser.hpp:40-62 | delivers and keeps exactly what draining the whole stream since the last reset would; delivered bytes plus buffer are the bytes fed; both counters |
| FixFramer.FixParser.CutMessages | 07-networking/exercises/ex3-fix-framer/fix_parser.hpp:48-60 | the loop refines the recursive drain |
| FixFramer.FixParser.Reset | 07-networking/exercises/ex3-fix-framer/fix_parser.hpp:64-67 | discards the buffer, keeps the counters |
| FixFramer.FrameExtend | 07-networking/exercises/ex3-fix-framer/fix_parser.hpp:49-56 | a framing decision is not changed by later bytes |
| FixFramer.FrameMeaning | 07-networking/exercises/ex3-fix-framer/fix_parser.hpp:43-56 | on the bytes: the first SOH 9= and the text to the next SOH fix the end of the message, 7 bytes after the body; it is cut once complete, and a text that is no int throws |
| FixFramer.FrameWaits | 07-networking/exercises/ex3-fix-framer/fix_parser.hpp:49-53 | without a whole tag 9 the loop waits |
| FixFramer.DrainSplit | 07-networking/exercises/ex3-fix-framer/fix_parser.hpp:30-31 | feeding a then b equals feeding a + b: messages, buffer and status |
| FixFramer.ChunkingIrrelevant | 07-networking/exercises/ex3-fix-framer/fix_parser.hpp:30-31 | any chunking of a stream is equivalent to the whole stream |
| FixFramer.DrainConserves | 07-networking/exercises/ex3-fix-framer/fix_parser.hpp:41-60 | messages followed by the buffer are the input, and the buffer holds no further message |
| FixFramer.SpinsIffLengthCancels | 07-networking/exercises/ex3-fix-framer/fix_parser.hpp:48-60 | feed fails to return iff at some frame boundary of the stream tag 9 is minus the length around the body |
| FixFramer.NoNegativeNeverSpins | 07-networking/exercises/ex3-fix-framer/fix_parser.hpp:48-60 | a stream without a negative tag 9 never makes feed spin, however it is cut up |
| FixFramer.StallExample | 07-networking/exercises/ex3-fix-framer/fix_parser.hpp:54-59 | a seven-byte stream on which the loop never ends |
| FixMessages.FixChecksum | 07-networking/exercises/ex3-fix-framer/fix_parser.hpp:81-86 | the 32-bit accumulation gives the byte sum modulo 256 despite wrap-around |
| FixMessages.SumOfOne | 07-networking/exercises/ex3-fix-framer/fix_parser.hpp:81-83 | the byte sum starts at 0 and counts a byte once |
| FixMessages.SumConcat | 07-networking/exercises/ex3-fix-framer/fix_parser.hpp:81-83 | and is additive |
| FixMessages.KnownChecksums | 07-networking/exercises/ex3-fix-framer/test_fix_parser.cpp:45-53 | the checksums the test names: 9 and 0 |
| FixMessages.KeptSplit | 07-networking/exercises/ex3-fix-framer/test_fix_parser.cpp:20-23 | of any field list exactly the tags 8, 9 and 10 are skipped |
| FixMessages.BuildFixMessage | 07-networking/exercises/ex3-fix-framer/test_fix_parser.cpp:18-33 | the loop builds the message whose layout and round trips are proved |
| FixMessages.FrameOfBuild | 07-networking/exercises/ex3-fix-framer/fix_parser.hpp:47-60 | a printed message followed by anything is cut exactly at its end, or throws if its body exceeds an int |
| FixMessages.FramingRoundTrip | 07-networking/exercises/ex3-fix-framer/test_fix_parser.cpp:122-159 | a list of printed messages comes back exactly, nothing left over, iff every body length fits an int |
| FixMessages.FragmentedRoundTrip | 07-networking/exercises/ex3-fix-framer/test_fix_parser.cpp:105-146 | the same if and only if, under any fragmentation |
| FixPrinting.BuildLayout | 07-networking/exercises/ex3-fix-framer/test_fix_parser.cpp:24-32 | the printed bytes, literally: begin string, body length, kept fields, byte sum modulo 256 in three digits |
| FixPrinting.PrintParse | 07-networking/exercises/ex3-fix-framer/test_fix_parser.cpp:55-79 | a list without tags 8, 9, 10 and without SOH in its values is read back as tag 8 FIX.4.2, tag 9 with the decimal body length, the list itself, and tag 10 |
| FixPrinting.PrintedFieldFound | 07-networking/exercises/ex3-fix-framer/test_fix_parser.cpp:68-78 | every printed field is found again by its tag |
| FixPrinting.PrintedExample | 07-networking/exercises/ex3-fix-framer/test_fix_parser.cpp:81-83 | the message with 35=D, byte by byte, with checksum 181 |
| FixPrinting.BadChecksumExample | 07-networking/exercises/ex3-fix-framer/test_fix_parser.cpp:81-86 | the same message with checksum 000 is rejected |
| FixParsing.ParseFixFields | 07-networking/exercises/ex3-fix-framer/fix_parser.hpp:88-102 | the splitting loop and checksum test compute the fields whose acceptance AcceptedIff characterises, empty on any failure |
| FixRejection.TokenMeaning | 07-networking/exercises/ex3-fix-framer/fix_parser.hpp:95-96 | a token is a field iff it has a = and what precedes the first one is an int |
| FixRejection.TokensSplit | 07-networking/exercises/ex3-fix-framer/fix_parser.hpp:94-96 | whole tokens are split off independently of what follows |
| FixRejection.MalformedRejected | 07-networking/exercises/ex3-fix-framer/fix_parser.hpp:90-95 | one malformed token anywhere makes the result empty |
| FixRejection.AcceptedIff | 07-networking/exercises/ex3-fix-framer/fix_parser.hpp:88-99 | accepted iff all tokens are fields and the first tag 10 reads as the byte sum modulo 256 of what precedes the last 10=; then all fields are returned |
| FixRejection.WrongChecksumRejected | 07-networking/exercises/ex3-fix-framer/fix_parser.hpp:89-99 | any text without a tag 10, followed by a trailer with another checksum than its own, is rejected |
| FixRejection.TrailerAcceptedIff | 07-networking/exercises/ex3-fix-framer/fix_parser.hpp:89-99 | whole tokens without a tag 10 and a trailer are accepted iff they are fields and the checksum is theirs |
| FixRejection.CorruptionRejected | 07-networking/exercises/ex3-fix-framer/fix_parser.hpp:14-15 | one changed byte before the trailer is rejected |
| FixParsing.FindField | 07-networking/exercises/ex3-fix-framer/test_fix_parser.cpp:37-41 | value of the first field with the tag, empty if there is none |
| FixParsing.ParseRoundTrip | 07-networking/exercises/ex3-fix-framer/test_fix_parser.cpp:55-79 | a printed message parses to tags 8 and 9, the kept fields and tag 10 iff no kept value holds SOH |
| FixParsing.TrailerIsLast | 07-networking/exercises/ex3-fix-framer/fix_parser.hpp:97-98 | the last "10=" is the trailer whatever the values hold |
| FixParsing.ChecksumCatchesOneByte | 07-networking/exercises/ex3-fix-framer/fix_parser.hpp:14-15 | changing any one byte changes the checksum |
| FixBytes.StoiOfIntText | 07-networking/exercises/ex3-fix-framer/test_fix_parser.cpp:22-26 | stoi reads back to_string for every int and throws beyond |
| FixBytes.StoiReads | 07-networking/exercises/ex3-fix-framer/fix_parser.hpp:54-54 | stoi on any text: white space, sign, digits, anything; throws iff there is no digit or the number is no int |
| FixBytes.DigitTextCanonical | 07-networking/exercises/ex3-fix-framer/test_fix_parser.cpp:22-26 | decimal text has no leading zero |
| SeqLock.ReachableInv | 05-concurrency/exercises/ex1-seqlock/seqlock.hpp:7-15 | in every interleaving: even counter means the data is the latest write, odd means a write in progress |
| SeqLock.AcceptedReadIsLatest | 05-concurrency/exercises/ex1-seqlock/seqlock.hpp:12-15 | an accepted read returns all words of the latest completed write, never a mix, unless the counter made a full turn |
| SeqLock.RefinesRegister | 05-concurrency/exercises/ex1-seqlock/seqlock.hpp:7-15 | every step is a step of an atomic register, except perhaps an accepting step after a full turn of the counter |
| SeqLock.WrapAroundTears | 05-concurrency/exercises/ex1-seqlock/seqlock.hpp:34-37 | after exactly 2^63 writes, one full turn of the counter, a torn value that was never written is accepted |
| SeqLock.SafeIffNoFullTurn | 05-concurrency/exercises/ex1-seqlock/seqlock.hpp:12-15 | all accepted reads within d increments return the latest value iff d < 2^64 |
| SeqLockProgress.BeginsIffResting | 05-concurrency/exercises/ex1-seqlock/seqlock.hpp:12-13 | outside a read a thread begins iff no write is in progress and spins iff one is |
| SeqLockProgress.AcceptsIffUnchanged | 05-concurrency/exercises/ex1-seqlock/seqlock.hpp:14-15 | inside a read, a retry is possible iff the counter has moved, up to full turns; acceptance iff it has not and all words are loaded |
| SeqLockProgress.ReadCompletes | 05-concurrency/exercises/ex1-seqlock/seqlock.hpp:12-15 | from every reachable state without a write in progress, the steps of one reader alone, without retry or wait, end in the acceptance of the latest value |
| SeqLockProgress.ReaderRecovers | 05-concurrency/exercises/ex1-seqlock/seqlock.hpp:12-15 | the same from wherever the reader stands, with one retry iff the counter has moved since its start |
| SeqLockProgress.WriteCompletes | 05-concurrency/exercises/ex1-seqlock/seqlock.hpp:7-10 | a resting writer's steps alone complete a write of any value |
| SeqLockProgress.WriteFinishes | 05-concurrency/exercises/ex1-seqlock/seqlock.hpp:7-10 | a write in progress can be finished by the writer alone, wherever it stands |
| SeqLockProgress.WriteThenRead | 05-concurrency/exercises/ex1-seqlock/test_seqlock.cpp:19-38 | what is written is what is read next |
| SpscQueue.ReachableInv | 05-concurrency/exercises/ex2-spsc-queue/spsc_queue.hpp:5-12 | the ring holds the pushed-but-not-popped values in place in every interleaving |
| SpscQueue.Fifo | 05-concurrency/exercises/ex2-spsc-queue/spsc_queue.hpp:5-12 | popped is a prefix of pushed and at most N - 1 values are held, none if N is 0 |
| SpscQueue.StepsAreSound | 05-concurrency/exercises/ex2-spsc-queue/spsc_queue.hpp:21-33 | no unread slot is stored to; full and empty results are right; pop takes the oldest value |
| SpscProgress.ProducerStepIs | 05-concurrency/exercises/ex2-spsc-queue/spsc_queue.hpp:11-23 | in every reachable state exactly the right producer step is enabled: the test of push goes on iff fewer than N - 1 values are held and fails iff N - 1 are |
| SpscProgress.ConsumerStepIs | 05-concurrency/exercises/ex2-spsc-queue/spsc_queue.hpp:12-33 | the same for the consumer: pop goes on iff a value is held and fails iff none is |
| SpscProgress.PushCompletes | 05-concurrency/exercises/ex2-spsc-queue/spsc_queue.hpp:21-23 | left alone, a push into a ring with room takes effect |
| SpscProgress.PushFails | 05-concurrency/exercises/ex2-spsc-queue/spsc_queue.hpp:21-23 | left alone, a push into a full ring fails and changes nothing |
| SpscProgress.PopCompletes | 05-concurrency/exercises/ex2-spsc-queue/spsc_queue.hpp:28-30 | left alone, a pop takes the oldest value if any is held |
| SpscProgress.PopFails | 05-concurrency/exercises/ex2-spsc-queue/spsc_queue.hpp:28-30 | left alone, a pop from an empty ring reports it and changes nothing |
| SpscProgress.PushAll | 05-concurrency/exercises/ex2-spsc-queue/test_spsc_queue.cpp:23-28 | as many pushes in a row succeed as there is room for |
| SpscProgress.PopAll | 05-concurrency/exercises/ex2-spsc-queue/test_spsc_queue.cpp:31-39 | as many pops in a row succeed as values are held, oldest first |
| SpscProgress.FillRing | 05-concurrency/exercises/ex2-spsc-queue/test_spsc_queue.cpp:58-66 | a new ring takes N - 1 values in a row and refuses the next |
| SpscProgress.DrainRing | 05-concurrency/exercises/ex2-spsc-queue/test_spsc_queue.cpp:68-78 | whatever is held comes out in order, and then the ring reports empty |
| SpscProgress.ProducerWaitFree | 05-concurrency/exercises/ex2-spsc-queue/spsc_queue.hpp:7-9 | from every reachable state the producer's steps alone end its call, in at most three |
| SpscProgress.ConsumerWaitFree | 05-concurrency/exercises/ex2-spsc-queue/spsc_queue.hpp:7-9 | and the consumer's |
| SpscQueue.MaskFormulas | 05-concurrency/exercises/ex2-spsc-queue/spsc_queue.hpp:35-51 | on any two indices the mask formula of size is the difference modulo N, empty is size 0 and full is size N - 1 |
| SpscQueue.MaskIsMod | 05-concurrency/exercises/ex2-spsc-queue/spsc_queue.hpp:39-39 | and-ing with 2^k - 1 is reduction modulo 2^k |
| SpscQueue.PowerOfTwoTest | 05-concurrency/exercises/ex2-spsc-queue/spsc_queue.hpp:16-16 | the compile-time test in size_t admits exactly the powers of two and 0 |
| SpscQueue.ZeroRing | 05-concurrency/exercises/ex2-spsc-queue/spsc_queue.hpp:11-16 | in a ring of 0 slots no push gets past its test and nothing is ever held |
| SpscQueue.ZeroRingQueries | 05-concurrency/exercises/ex2-spsc-queue/spsc_queue.hpp:35-51 | there size is 0, empty holds and full is false |
| SpscQueries.QueryObserves | 05-concurrency/exercises/ex2-spsc-queue/spsc_queue.hpp:35-51 | with the two loads at any two moments of any interleaving, size is pushes seen less pops seen modulo N, and empty and full are its extremes |
| SpscQueries.QueryExactIff | 05-concurrency/exercises/ex2-spsc-queue/spsc_queue.hpp:35-40 | a query is right about a moment iff the pushes and pops its loads miss cancel modulo N |
| SpscQueries.ProducerQuery | 05-concurrency/exercises/ex2-spsc-queue/spsc_queue.hpp:35-51 | called by the producer, all three queries are right at the moment they load the consumer's index |
| SpscQueries.ConsumerQuery | 05-concurrency/exercises/ex2-spsc-queue/spsc_queue.hpp:35-51 | called by the consumer, at the moment they load the producer's index |
| SpscQueries.OutsideObserverMisled | 05-concurrency/exercises/ex2-spsc-queue/spsc_queue.hpp:35-40 | a run that never holds more than one value, in which a third thread sees a size of 2 |
| LinkedLists.LinkedList.PushFront | 00-c-for-programmers/exercises/ex3-structs-and-pointers/structs.c:27-37 | prepends a new node, chain stays acyclic, length counts it |
| LinkedLists.LinkedList.PushBack | 00-c-for-programmers/exercises/ex3-structs-and-pointers/structs.c:39-60 | appends a new node after walking to the end |
| LinkedLists.LinkedList.PopFront | 00-c-for-programmers/exercises/ex3-structs-and-pointers/structs.c:62-74 | removes and frees exactly the first node and returns its value |
| LinkedLists.LinkedList.Contains | 00-c-for-programmers/exercises/ex3-structs-and-pointers/structs.c:76-85 | true iff the value is in the sequence |
| LinkedLists.LinkedList.Get | 00-c-for-programmers/exercises/ex3-structs-and-pointers/structs.c:87-96 | the value at an index |
| LinkedLists.LinkedList.Remove | 00-c-for-programmers/exercises/ex3-structs-and-pointers/structs.c:98-132 | removes the first occurrence only, frees exactly that node, reports whether there was one |
| LinkedLists.LinkedList.Free | 00-c-for-programmers/exercises/ex3-structs-and-pointers/structs.c:134-149 | frees every node exactly once, in order, and empties the list |
| IntVecs.IntVec.Push | 00-c-for-programmers/exercises/ex2-strings-and-arrays/strings.c:155-175 | appends, doubling when full, and keeps the cost invariant; the store is within bounds iff the capacity was positive |
| IntVecs.IntVec.Pop | 00-c-for-programmers/exercises/ex2-strings-and-arrays/strings.c:177-184 | removes and returns the last element |
| IntVecs.IntVec.AmortisedCost | 00-c-for-programmers/exercises/ex2-strings-and-arrays/strings.c:142-184 | capacity is initial times a power of two and at most max(initial, 2 (peak - 1)); all copying is capacity minus initial, under two per push |
| CStrings.TextRoundTrip | 00-c-for-programmers/exercises/ex2-strings-and-arrays/strings.c:7-7 | a text followed by a NUL is read back whatever follows |
| CStrings.StrLen | 00-c-for-programmers/exercises/ex2-strings-and-arrays/strings.c:24-37 | length of the text before the first NUL |
| CStrings.StrCpy | 00-c-for-programmers/exercises/ex2-strings-and-arrays/strings.c:39-51 | copies text and NUL and no other byte; the copy reads back as the text |
| CStrings.StrCat | 00-c-for-programmers/exercises/ex2-strings-and-arrays/strings.c:73-84 | the text becomes the concatenation, in place |
| CStrings.StrDup | 00-c-for-programmers/exercises/ex2-strings-and-arrays/strings.c:86-101 | an equal text in new storage of the exact size |
| CStrings.StrJoin | 00-c-for-programmers/exercises/ex2-strings-and-arrays/strings.c:103-112 | the concatenation in new storage of the exact size |
| CStrings.StrCmp | 00-c-for-programmers/exercises/ex2-strings-and-arrays/strings.c:53-71 | the loop returns the difference of the first differing unsigned bytes |
| CStrings.CompareIsOrder | 00-c-for-programmers/exercises/ex2-strings-and-arrays/strings.c:53-71 | that difference is negative, zero or positive as one text comes before, equals or comes after the other in dictionary order |
| CStrings.CompareIsDifference | 00-c-for-programmers/exercises/ex2-strings-and-arrays/strings.c:56-70 | the result is the difference of the first bytes that differ, the NUL included |
| CStrings.CompareTransitive | 00-c-for-programmers/exercises/ex2-strings-and-arrays/strings.c:53-71 | the order is transitive |
| CStrings.StrReverse | 00-c-for-programmers/exercises/ex2-strings-and-arrays/strings.c:114-126 | reverses the text in place and leaves the bytes from the NUL on |
| CStrings.StrIsPalindrome | 00-c-for-programmers/exercises/ex2-strings-and-arrays/strings.c:128-138 | true iff reversing the text leaves it unchanged |
| Ownership.Run.Construct | 02-modern-cpp/exercises/ex1-raii-ownership/ownership.hpp:36-36 | a new wrapper holds the given number, -1 and numbers used before included |
| Ownership.Run.MoveConstruct | 02-modern-cpp/exercises/ex1-raii-ownership/ownership.hpp:47-51 | ownership moves, the source is empty |
| Ownership.Run.MoveAssign | 02-modern-cpp/exercises/ex1-raii-ownership/ownership.hpp:53-61 | what was held is closed once, ownership moves, a self-move ends empty |
| Ownership.Run.Release | 02-modern-cpp/exercises/ex1-raii-ownership/ownership.hpp:65-75 | hands over without closing |
| Ownership.Run.Destroy | 02-modern-cpp/exercises/ex1-raii-ownership/ownership.hpp:37-42 | closes what is still owned, exactly once |
| Ownership.Run.NoLeak | 02-modern-cpp/exercises/ex1-raii-ownership/ownership.hpp:26-33 | never more closes and releases than wraps; with no wrapper left exactly as many, number by number |
| Buffers.Run.Construct | 02-modern-cpp/exercises/ex3-move-semantics/buffer.hpp:12-16 | zeroed storage of the asked size, the one allocation made, nothing freed |
| Buffers.Run.CopyConstruct | 02-modern-cpp/exercises/ex3-move-semantics/buffer.hpp:18-33 | equal contents in separate storage, one allocation, one copy counted, nothing freed |
| Buffers.Run.CopyAssign | 02-modern-cpp/exercises/ex3-move-semantics/buffer.hpp:35-54 | frees exactly the old storage and makes one allocation; the contents are kept iff the buffers are distinct or the old contents all zero |
| Buffers.Run.MoveConstruct | 02-modern-cpp/exercises/ex3-move-semantics/buffer.hpp:56-65 | storage and contents move without allocation, source null |
| Buffers.Run.MoveAssign | 02-modern-cpp/exercises/ex3-move-semantics/buffer.hpp:67-80 | frees the old storage once, storage moves, a self-move ends null |
| Buffers.Run.Destroy | 02-modern-cpp/exercises/ex3-move-semantics/buffer.hpp:82-85 | frees what is still held, exactly once, and counts nothing |
| Buffers.Run.NoLeak | 02-modern-cpp/exercises/ex3-move-semantics/buffer.hpp:82-85 | with no buffer left every allocation has been freed |
| FloatBits.TwiceDoubles | 01-bits-and-bytes/exercises/ex2-ieee754/float_bits.c:52-75 | the value doubles exactly for stored exponent up to 253, denormal to normalized included, and the sign is kept |
| FloatBits.TwiceIterates | 01-bits-and-bytes/exercises/ex2-ieee754/float_bits.c:52-75 | n doublings stay finite iff 2^n times the magnitude is below 2^277 units, and then multiply the value by 2^n |
| FloatBits.TwiceOverflow | 01-bits-and-bytes/exercises/ex2-ieee754/float_bits.c:67-73 | at exponent 254: infinity iff the fraction is 0, NaN otherwise, sign kept |
| FloatBits.SpecialsStay | 01-bits-and-bytes/exercises/ex2-ieee754/float_bits.c:65-66 | infinities and NaNs are returned as they are by both functions |
| FloatBits.HalfExact | 01-bits-and-bytes/exercises/ex2-ieee754/float_bits.c:100-107 | the value halves exactly for stored exponents 2 to 254, sign kept |
| FloatBits.HalfTruncates | 01-bits-and-bytes/exercises/ex2-ieee754/float_bits.c:82-108 | the magnitude is halved and truncated iff the exponent is not 1 or the fraction is all ones |
| FloatBits.HalfUndoesTwice | 01-bits-and-bytes/exercises/ex2-ieee754/float_bits.c:77-108 | the two are inverse on exactly the stated encodings |
| FloatBits.NegateMeaning | 01-bits-and-bytes/exercises/ex2-ieee754/float_bits.c:24-33 | negates every finite value, flips the sign of zeros and infinities, keeps NaN, undoes itself |

## Left out

- Integer width of prices, quantities, ids and counters in the order book: mathematical integers stand for int64 and uint64, so sums are assumed to stay in range.
- MatchingEngines.MatchingEngine.ProcessEvent: asks for positive quantities and non-negative prices of adds, because the header does not say what an order of quantity 0 does and -1 is its "no price" value.
- OrderBook.LimitOrderBook.Best: is tied to the live orders when quantities are positive and prices non-negative; for other orders only the index agreement is promised, since their level sums can cancel to 0.
- The `fills` vector and the FIX callback: modelled as returned sequences instead of a caller-owned vector and a function object.
- `print_top`, `order_count`, `bid_levels` and `ask_levels`: output and sizes of maps.
- FixFramer.FixParser.Feed: when the source loop never returns, the model stops and reports `Spinning`; the endless deliveries of the source are not unrolled. Buffers are assumed shorter than 2^63 bytes, so a negative total always wraps above the buffer size.
- Memory ordering weaker than sequential consistency, cache-line padding, and waiting times in the seqlock and the SPSC ring; the move overload of `push` and `try_pop` behave as `push` and `pop`.
- Allocation failure in the strings, the list, the vector and the buffers; reading freed memory is excluded by the ownership invariants, not modelled as an error value.
- CStrings.StrCpy: asks for room in the destination and for two distinct arrays, as C does; texts are assumed shorter than 2^31, since `my_strcat`, `my_strdup` and `str_join` keep lengths in an int.
- IntVecs.IntVec.Push: after a store out of bounds the source has no defined result; the model appends nothing.
- `UniqueBuffer` (a `Buffer` without the copies) and `ScopeGuard` (one flag).
- `float_abs` and the unfinished `int_to_float`.
- The branchless arithmetic of `bits.c`: not modelled.
- `MPMCQueue`, `CircularBuffer`, `PoolAllocator`, `Arena`, `ObjectPool`, `dns_pack`: stubs or bump allocators whose designs promise less than what is modelled here.
- The echo server, multicast, benchmarks, `tools/`, `hello.c`, `primitives.hpp` and the entity functions.
