# export-benchmark core, modelled in Dafny

This project models the data-handling core of a browser benchmark that
decodes and re-encodes H.264 video with WebCodecs. The model has seven parts:

- **ArrayUtils** (`array_utils.dfy`): the generic Knuth–Morris–Pratt search.
  - `BuildPattern` builds the failure table.
  - `SearchPattern` reports every start offset, overlapping ones included.
  - `StartsWith` tests a prefix.
  - `SearchPattern`'s loop is proved against a declarative list of
    occurrences, and `BuildPattern`'s against the definition of the longest
    proper border of each prefix.
- **Interfaces** (`interfaces.dfy`): the 32 NAL unit type codes, the
  four-byte Annex-B start code `00 00 00 01`, the `AvcNalu` record and the
  type test `isTypedNalu`.
- **NaluTransformer** (`nalu_transformer.dfy`): the stream stage that cuts
  an Annex-B byte stream, arriving in chunks, into NAL units.
  - It keeps the unfinished unit as a list of carried-over fragments.
  - Each cut is specified by two functions of the carried fragments and the
    new chunk: the emitted units and the new carry-over.
  - Lemmas prove that the cut loses or adds no byte, that there is one unit
    per start code, and that every unit but the first starts with the start
    code.
  - Header parsing (`& 0x1f`, `>> 5 & 3`) works on bytes as `bv8`.
  - The bytes before the stream's first start code form the first unit, as
    in the code. When the stream begins with `00 00 00 01` that unit is
    empty and comes out as a record of type 0; leading bytes such as
    `leading_zero_8bits` make it non-empty.
- **ChunkTransformer** (`chunk_transformer.dfy`): the fixed-frame-rate
  timestamper.
  - Each coded slice gets timestamp `floor(1e6 * seqno / frameRate)` and
    duration `floor(1e6 / frameRate)`.
  - It is a key frame exactly when it is an IDR slice.
  - Every other unit yields nothing.
  - Lemmas prove the floor bounds, that timestamps never decrease, and that
    the spacing between consecutive frames is the duration or one
    microsecond more.
- **Bitstream** (`bitstream.dfy`): deriving the decoder configuration from
  the first sequence parameter set (SPS).
  - It covers the codec string (`avc1.PP00LL` in the form of section 3 of
    RFC 6381, plus the literal `}` the code appends) and the coded width and
    height formulas.
  - It also covers the premature-end error.
  - The SPS parser is a library routine, so it is a function parameter.
- **BlockingQueue** (`blocking_queue.dfy`): the bounded producer/consumer
  queue.
  - Push, pull and close are pure steps over a state record, and the class
    methods are proved to perform exactly those steps.
  - The state carries ghost logs of accepted and delivered values.
  - The invariant says that the delivered values followed by the buffer are
    exactly the accepted values.
  - From it come the FIFO lemmas, the suspension rule and the drain-after-close
    behaviour.
- **LeaderFollower** (`leader_follower.dfy`): the queue that runs enqueued
  asynchronous functions one at a time.
  - Each started function gets a `nextCallback` closure. Its first call
    starts the next waiting function, synchronously up to a recursion depth
    of 10 and through a deferred timer tick beyond that. Any later call only
    warns.
  - Timed promises (`createTimedPromise`, `enqueuePromise`) are modelled as
    runs with an optional armed timeout timer. Settlement of the inner
    promise and the firing of the timer are external events.
  - The invariant covers:
    - ids increase in admission order;
    - the slot holds the last started run;
    - only that run may still owe its callback;
    - depths stay bounded;
    - the queue advances at most once per run;
    - armed timers belong to timed runs that have no outcome yet.

  Every public operation is proved to keep the invariant.

Time, promises and callbacks are modelled as explicit events: a timer tick,
a settlement or a timeout is a method call. The `console.warn` output is a
ghost counter.

## Model

| member | source | states |
|---|---|---|
| ArrayUtils.BuildPattern | src/decoder/array-utils.ts:1-18 | the table has one entry per pattern element, and entry k is the length of the longest proper border of the pattern's first k+1 elements |
| ArrayUtils.SearchPattern | src/decoder/array-utils.ts:28-54 | for a non-empty pattern, the offsets returned are exactly the occurrences of the pattern in the text, in increasing order |
| ArrayUtils.OccurrencesCharacterised | src/decoder/array-utils.ts:20-27 | the occurrence list is sound (each offset is a match), complete (every match is listed) and strictly increasing |
| ArrayUtils.OverlappingExample | src/decoder/array-utils.ts:41-43 | after a match the search falls back through the table, so overlapping matches are reported: "aa" occurs in "aaaa" at 0, 1 and 2 |
| ArrayUtils.StartsWith | src/decoder/array-utils.ts:56-64 | true exactly when the prefix is no longer than the text and equals the text's leading elements |
| Interfaces.IsTypedNalu | src/decoder/interfaces.ts:44-46 | the type guard: a unit is of type t when its type field is t (its meaning on emitted records is stated by TypedUnitHeader) |
| NaluTransformer.ParseNalu | src/decoder/nalu-transformer.ts:7-15 | the type is the low five bits of the first body byte and the reference indicator the next two bits; together they rebuild the byte's low seven bits; an empty body reads as type 0, indicator 0 |
| NaluTransformer.MaskBits | src/decoder/nalu-transformer.ts:11-12 | the masks `& 0x1f` and `>> 5 & 3` on a byte are the remainder by 32 and the quotient by 32 taken modulo 4 |
| NaluTransformer.StripPrefix | src/decoder/nalu-transformer.ts:48 | the body is what follows the first four bytes, and nothing for a shorter unit |
| NaluTransformer.ToAvcNalu | src/decoder/nalu-transformer.ts:47-51 | composes StripPrefix and ParseNalu: the emitted record holds the body after the start code and the header fields parsed from that body |
| NaluTransformer.TypedUnitHeader | src/decoder/interfaces.ts:44-46 | an emitted record passes the type guard for t exactly when the low five bits of the byte after the start code are t, or, for a unit with no such byte, when t is 0 |
| NaluTransformer.Concat | src/decoder/nalu-transformer.ts:32 | joins fragments in order, as building a `Blob` from the buffered parts does; ConcatAppend and ConcatSingle state that it distributes over appending |
| NaluTransformer.Between | src/decoder/nalu-transformer.ts:33 | one unit per pair of consecutive positions, each unit the chunk slice between them |
| NaluTransformer.SplitUnits | src/decoder/nalu-transformer.ts:17-34 | the units one chunk releases: none without a start code, otherwise the carried fragments joined with the bytes before the first start code, then the slices between consecutive start codes; SplitConservesBytes, SplitUnitCount and SplitFraming state its properties |
| NaluTransformer.CarryOver | src/decoder/nalu-transformer.ts:23-37 | the new buffer: the chunk appended to the carried fragments without a start code, otherwise the chunk from its last start code on |
| NaluTransformer.AvcNaluTransformer.constructor | src/decoder/nalu-transformer.ts:5 | the buffer starts empty |
| NaluTransformer.BetweenTelescopes | src/decoder/nalu-transformer.ts:33 | the units between consecutive start codes, joined, give the chunk from the first start code to the last |
| NaluTransformer.StartCodesApart | src/decoder/interfaces.ts:36 | two occurrences of `00 00 00 01` are at least four bytes apart |
| NaluTransformer.BetweenStartWithPrefix | src/decoder/nalu-transformer.ts:33 | every unit cut between two start codes begins with the start code |
| NaluTransformer.OccurrencesAreValidPositions | src/decoder/nalu-transformer.ts:21 | the start-code positions of a chunk are increasing, in range, and each is a start code |
| NaluTransformer.SplitConservesBytes | src/decoder/nalu-transformer.ts:17-40 | the emitted units joined, followed by the new carry-over joined, are the old carry-over joined, followed by the chunk: no byte is lost or duplicated |
| NaluTransformer.SplitUnitCount | src/decoder/nalu-transformer.ts:31-34 | a chunk yields one unit per start code it contains |
| NaluTransformer.SplitFraming | src/decoder/nalu-transformer.ts:29-37 | once a start code is found, the carry-over is a single fragment beginning with the last start code, and every emitted unit after the first begins with a start code |
| NaluTransformer.SplitWithoutStartCode | src/decoder/nalu-transformer.ts:23-27 | a chunk without a start code emits nothing and is appended to the carry-over |
| NaluTransformer.AvcNaluTransformer.ExtractNalus | src/decoder/nalu-transformer.ts:17-40 | returns the units the split specifies and replaces the buffer by the specified carry-over |
| NaluTransformer.AvcNaluTransformer.Transform | src/decoder/nalu-transformer.ts:44-53 | outputs, in order, one record per extracted unit, the record built from that unit |
| NaluTransformer.AvcNaluTransformer.Flush | src/decoder/nalu-transformer.ts:55-65 | outputs the record built from all buffered fragments joined and empties the buffer |
| ChunkTransformer.FrameTimestamp | src/decoder/chunk-transformer.ts:19-21 | the timestamp is the floor of 1e6·seqno/frameRate: ts·frameRate ≤ 1e6·seqno < (ts+1)·frameRate |
| ChunkTransformer.FrameDuration | src/decoder/chunk-transformer.ts:14-17 | the duration is the floor of 1e6/frameRate: d·frameRate ≤ 1e6 < (d+1)·frameRate |
| ChunkTransformer.TimestampMonotone | src/decoder/chunk-transformer.ts:19-21 | a later frame number never gets an earlier timestamp |
| ChunkTransformer.TimestampSpacing | src/decoder/chunk-transformer.ts:16-21 | consecutive frames are exactly one duration apart, or one microsecond more |
| ChunkTransformer.StampedTimestampsNonDecreasing | src/decoder/chunk-transformer.ts:25-36 | chunks stamped frame by frame are in non-decreasing timestamp order |
| ChunkTransformer.EncodedVideoChunkTransformer.constructor | src/decoder/chunk-transformer.ts:13-17 | a positive frame rate gives a valid transformer with counter 0, nothing emitted, and the duration FrameDuration(frameRate) |
| ChunkTransformer.EncodedVideoChunkTransformer.CalculateFrameTimestamp | src/decoder/chunk-transformer.ts:19-21 | returns the timestamp of the current frame number, then increments the counter |
| ChunkTransformer.EncodedVideoChunkTransformer.Transform | src/decoder/chunk-transformer.ts:25-36 | a coded slice yields a chunk that is key exactly for IDR, carries the next frame's timestamp and the fixed duration, and advances the counter; any other unit yields nothing and leaves the counter alone; the emitted log stays stamped in order |
| ChunkTransformer.EmittedTimestampsNonDecreasing | src/decoder/chunk-transformer.ts:29-31 | everything a transformer has emitted is in non-decreasing timestamp order |
| Bitstream.CodedWidth | src/decoder/bitstream.ts:49 | the code's width: 16 pixels per macroblock column minus twice the left and right crop offsets; CodedWidthIsStandard relates it to the standard |
| Bitstream.CodedHeight | src/decoder/bitstream.ts:50 | the code's height: 16 pixels per map-unit row, doubled for field coding, minus twice the top and bottom crop offsets; CodedHeightAgainstStandard relates it to the standard |
| Bitstream.CodecString | src/decoder/bitstream.ts:48 | `avc1.`, the profile padded to two hex digits, `00`, the level padded to two hex digits, `}`; CodecStringLayout and CodecStringInjective state its shape |
| Bitstream.Rbsp | src/decoder/bitstream.ts:45 | the body without its first (header) byte, and nothing for an empty body |
| Bitstream.DecoderConfigOf | src/decoder/bitstream.ts:29-57 | the configuration of the first SPS unit, the parser's failure, or the premature-end error when no SPS unit exists; PrematureEndIffNoSps and LaterUnitsIgnored state its properties |
| Bitstream.CodedWidthIsStandard | src/decoder/bitstream.ts:49 | the width formula equals the H.264 cropped luma width for 4:2:0 (section 7.4.2.1.1 of ITU-T H.264) and is even |
| Bitstream.CodedHeightAgainstStandard | src/decoder/bitstream.ts:50 | for frame-only streams the height formula equals the H.264 cropped height; for field-coded streams it exceeds it by twice the vertical crop offsets |
| Bitstream.UncroppedSizeInMacroblocks | src/decoder/bitstream.ts:49-50 | without cropping the size is 16 pixels per macroblock column and 16 or 32 per map-unit row |
| Bitstream.ToHex | src/decoder/bitstream.ts:48 | the hexadecimal rendering is non-empty, made of lower-case hex digits, a single digit exactly for values below 16, and starts with `0` only for 0 (no leading zeros) |
| Bitstream.HexRoundTrip | src/decoder/bitstream.ts:48 | reading the hexadecimal rendering back gives the number |
| Bitstream.PadStart | src/decoder/bitstream.ts:48 | the padded string has the target width (or its own, if longer), ends with the input, and is zeros before it |
| Bitstream.Hex2Digits | src/decoder/bitstream.ts:48 | a byte-sized value pads to exactly its high and low nibble digits |
| Bitstream.CodecStringLayout | src/decoder/bitstream.ts:48 | for byte-sized profile and level the codec string is 12 characters: `avc1.`, two profile digits, `00`, two level digits, `}`; both values read back from their digits |
| Bitstream.CodecStringInjective | src/decoder/bitstream.ts:48 | different byte-sized profile or level values give different codec strings |
| Bitstream.FirstIndexOfType | src/decoder/bitstream.ts:32-33 | the result is the index of the first unit of the given type, and none means no unit has that type |
| Bitstream.PrematureEndIffNoSps | src/decoder/bitstream.ts:56 | when the SPS parser never fails with that message, the premature-end error arises exactly when the stream has no SPS unit |
| Bitstream.LaterUnitsIgnored | src/decoder/bitstream.ts:32-53 | units after the first SPS do not affect the configuration |
| Bitstream.FirstIndexPrefix | src/decoder/bitstream.ts:32-33 | the first unit of a type in a prefix stays the first one when more units follow |
| Bitstream.ParseVideoDecoderConfig | src/decoder/bitstream.ts:29-57 | the read loop returns the configuration of the first SPS unit, the parser's failure, or the premature-end error |
| BlockingQueue.Create | src/shared/blocking-queue.ts:23-27 | construction fails, with the capacity message, exactly when the capacity is below 1; otherwise the queue has the given capacity, is open, valid and empty, has no waiting pull or push, and has empty logs |
| BlockingQueue.SpareCapacityOf | src/shared/blocking-queue.ts:32-34 | the capacity minus the buffer length; PushesWithinSpareCapacity states what it promises |
| BlockingQueue.PushStep | src/shared/blocking-queue.ts:47-63 | a push: rejected on a closed queue; handed to a waiting pull; otherwise buffered, suspending when the buffer exceeds the capacity; PushKeepsValid and PushSuspendsIffOverCapacity state its properties |
| BlockingQueue.PullStep | src/shared/blocking-queue.ts:75-91 | a pull: always resumes a waiting push; returns the oldest buffered value, or on an empty buffer the end marker once closed, and otherwise waits; PullKeepsValid and PullReturnsOldest state its properties |
| BlockingQueue.CloseStep | src/shared/blocking-queue.ts:93-99 | closes the queue and ends a waiting pull, leaving the slot set; CloseKeepsValid and DrainAfterClose state its properties |
| BlockingQueue.PushKeepsValid | src/shared/blocking-queue.ts:47-63 | a push keeps the invariant: delivered values followed by the buffer are the accepted values, a waiting pull means an empty buffer, a waiting push means an over-full buffer |
| BlockingQueue.PullKeepsValid | src/shared/blocking-queue.ts:75-91 | a pull keeps the invariant |
| BlockingQueue.CloseKeepsValid | src/shared/blocking-queue.ts:93-99 | closing keeps the invariant |
| BlockingQueue.DeliveredInPushOrder | src/shared/blocking-queue.ts:56-76 | values are delivered in push order, and the buffer holds exactly the accepted values not yet delivered |
| BlockingQueue.PullReturnsOldest | src/shared/blocking-queue.ts:76 | a pull from a non-empty buffer returns the oldest accepted value not yet delivered |
| BlockingQueue.PushSuspendsIffOverCapacity | src/shared/blocking-queue.ts:52-62 | a push suspends exactly when the queue is open, no pull waits, and the buffer would exceed the capacity; a handed-off value leaves the buffer unchanged |
| BlockingQueue.SinglePusherBound | src/shared/blocking-queue.ts:58-62 | with one pusher that waits while suspended, the buffer never exceeds the capacity by more than one |
| BlockingQueue.PushesWithinSpareCapacity | src/shared/blocking-queue.ts:28-34 | as many pushes as the spare capacity succeed without suspending |
| BlockingQueue.DrainAfterClose | src/shared/blocking-queue.ts:75-99 | after close, pulls return the buffered values in order and then the end marker |
| BlockingQueue.BlockingQueue.constructor | src/shared/blocking-queue.ts:23-27 | a capacity of at least 1 gives the state that creation specifies |
| BlockingQueue.BlockingQueue.New | src/shared/blocking-queue.ts:23-27 | construction succeeds or fails as creation specifies |
| BlockingQueue.BlockingQueue.SpareCapacity | src/shared/blocking-queue.ts:32-34 | the capacity minus the buffer length |
| BlockingQueue.BlockingQueue.MaybeUnblockPull | src/shared/blocking-queue.ts:36-45 | hands the value to a waiting pull exactly when one waits, and then no pull waits |
| BlockingQueue.BlockingQueue.MaybeUnblockPush | src/shared/blocking-queue.ts:65-73 | resumes a waiting push, if any; afterwards none waits |
| BlockingQueue.BlockingQueue.Push | src/shared/blocking-queue.ts:47-63 | performs the push step and keeps the invariant |
| BlockingQueue.BlockingQueue.Pull | src/shared/blocking-queue.ts:75-91 | performs the pull step and keeps the invariant |
| BlockingQueue.BlockingQueue.Close | src/shared/blocking-queue.ts:93-99 | performs the close step and keeps the invariant |
| LeaderFollower.RunFunctionStep | src/shared/leader-follower.ts:132-147 | puts the function in the slot and records a fresh run at the given depth, arming a timer for a timed promise with a positive timeout; RunFunctionKeepsValid and TimerOnlyForPositiveTimeout state its properties |
| LeaderFollower.UnwindQueueRecursivelyStep | src/shared/leader-follower.ts:109-116 | starts the front of the wait list at the given depth, or empties the slot; UnwindKeepsValid states it keeps the invariant |
| LeaderFollower.ProcessQueueNextStep | src/shared/leader-follower.ts:118-130 | beyond depth 10 defers the unwinding to a tick, otherwise unwinds one level deeper; ProcessQueueNextKeepsValid and FirstCallbackAdvances state its properties |
| LeaderFollower.CallbackStep | src/shared/leader-follower.ts:137-146 | the first call of a run's callback logs an advance and processes the next function; a later call warns; CallbackKeepsValid, RepeatedCallbackIgnored and CallbackFrame state its properties |
| LeaderFollower.EnqueueFunctionStep | src/shared/leader-follower.ts:88-99 | takes the next id and starts the function when idle or appends it; EnqueueTakesNextId and EnqueueKeepsValid state its properties |
| LeaderFollower.DeferredTickStep | src/shared/leader-follower.ts:122-124 | one deferred unwinding at depth 0; DeferredTickKeepsValid and DeferralKeepsOrder state its properties |
| LeaderFollower.DiscardQueuedStep | src/shared/leader-follower.ts:84-86 | empties the wait list; DiscardKeepsValid states it keeps the invariant |
| LeaderFollower.SettlePromiseStep | src/shared/leader-follower.ts:51-61 | the first settlement of a run's inner promise clears its timer, records the outcome unless one exists, and calls the callback; SettleKeepsValid and TimeoutAndSettleAdvanceOnce state its properties |
| LeaderFollower.TimerFiresStep | src/shared/leader-follower.ts:40-48 | calls the callback, then records the timeout unless an outcome exists; TimerKeepsValid and TimeoutAndSettleAdvanceOnce state its properties |
| LeaderFollower.InitialValid | src/shared/leader-follower.ts:12-14 | the fresh queue satisfies the invariant |
| LeaderFollower.EnqueueKeepsValid | src/shared/leader-follower.ts:88-99 | enqueuing keeps the invariant |
| LeaderFollower.CallbackKeepsValid | src/shared/leader-follower.ts:137-146 | any call of a run's callback keeps the invariant |
| LeaderFollower.DeferredTickKeepsValid | src/shared/leader-follower.ts:122-124 | the deferred unwinding keeps the invariant |
| LeaderFollower.DiscardKeepsValid | src/shared/leader-follower.ts:84-86 | discarding the wait list keeps the invariant |
| LeaderFollower.SettleKeepsValid | src/shared/leader-follower.ts:51-61 | settling a timed promise that has not settled before keeps the invariant |
| LeaderFollower.TimerKeepsValid | src/shared/leader-follower.ts:40-48 | a firing timeout keeps the invariant |
| LeaderFollower.ProcessQueueNextKeepsValid | src/shared/leader-follower.ts:118-130 | after the first callback, unwinding one level deeper or deferring keeps the invariant |
| LeaderFollower.UnwindKeepsValid | src/shared/leader-follower.ts:109-116 | starting the front of the wait list, or emptying the slot, keeps the invariant |
| LeaderFollower.RunFunctionKeepsValid | src/shared/leader-follower.ts:132-147 | starting a function with an admitted id keeps the invariant |
| LeaderFollower.EnqueueTakesNextId | src/shared/leader-follower.ts:88-99 | enqueuing takes the next id; when idle it starts the function at depth 0, otherwise it appends to the wait list and leaves the running function alone |
| LeaderFollower.StartedInAdmissionOrder | src/shared/leader-follower.ts:88-116 | functions are started in admission order, and every started one was admitted before every waiting one |
| LeaderFollower.OneAtATime | src/shared/leader-follower.ts:105-107 | idle means an empty wait list, and the only run that can still owe its callback is the last one, held in the slot |
| LeaderFollower.RepeatedCallbackIgnored | src/shared/leader-follower.ts:138-141 | a callback called a second time only warns |
| LeaderFollower.FirstCallbackAdvances | src/shared/leader-follower.ts:142-145 | the first callback logs one advance; within the depth limit it starts the front of the wait list one level deeper or empties the slot; beyond it, it defers, keeping the slot and the list |
| LeaderFollower.DeferralKeepsOrder | src/shared/leader-follower.ts:119-124 | while an unwinding is deferred, new functions still queue at the back, and the tick starts the front at depth 0 or empties the slot |
| LeaderFollower.TimerOnlyForPositiveTimeout | src/shared/leader-follower.ts:38-49 | a timer is armed exactly for a timed promise with a positive timeout, which `enqueuePromise`'s 0 never is |
| LeaderFollower.CallbackArmsOnlyNewRun | src/shared/leader-follower.ts:137-146 | a callback can arm at most the timer of the run it starts |
| LeaderFollower.CallbackFrame | src/shared/leader-follower.ts:137-146 | a callback does not touch outcomes or settlements, leaves its run called back, and advances or warns depending on whether it was called before |
| LeaderFollower.TimeoutAndSettleAdvanceOnce | src/shared/leader-follower.ts:38-61 | when the timeout fires and the promise settles afterwards, the queue advances once, the second callback warns, and the outer promise stays timed out; settlement first records its own outcome and clears the timer |
| LeaderFollower.Funcs | src/shared/leader-follower.ts:101-103 | the list of the waiting functions, in order |
| LeaderFollower.LeaderFollowerQueue.constructor | src/shared/leader-follower.ts:11-14 | the fresh object has the initial state |
| LeaderFollower.LeaderFollowerQueue.IsIdle | src/shared/leader-follower.ts:105-107 | idle exactly when no function is in the slot; under the invariant that means nothing waits and no tick is pending |
| LeaderFollower.LeaderFollowerQueue.GetEnqueuedFunctions | src/shared/leader-follower.ts:101-103 | the functions of the wait list, front first |
| LeaderFollower.LeaderFollowerQueue.DiscardQueued | src/shared/leader-follower.ts:84-86 | empties the wait list and keeps the invariant |
| LeaderFollower.LeaderFollowerQueue.RunFunction | src/shared/leader-follower.ts:132-147 | puts the function in the slot and records a fresh, not yet called back run at the given depth |
| LeaderFollower.LeaderFollowerQueue.UnwindQueueRecursively | src/shared/leader-follower.ts:109-116 | performs the unwind step |
| LeaderFollower.LeaderFollowerQueue.ProcessQueueNext | src/shared/leader-follower.ts:118-130 | performs the process-next step |
| LeaderFollower.LeaderFollowerQueue.Callback | src/shared/leader-follower.ts:137-146 | performs the callback step and keeps the invariant |
| LeaderFollower.LeaderFollowerQueue.EnqueueFunction | src/shared/leader-follower.ts:88-99 | performs the enqueue step and keeps the invariant |
| LeaderFollower.LeaderFollowerQueue.DeferredTick | src/shared/leader-follower.ts:122-124 | runs one deferred unwinding at depth 0 and keeps the invariant |
| LeaderFollower.LeaderFollowerQueue.CreateTimedPromise | src/shared/leader-follower.ts:31-64 | enqueues a timed promise function with the given timeout and keeps the invariant |
| LeaderFollower.LeaderFollowerQueue.EnqueuePromise | src/shared/leader-follower.ts:78-82 | enqueues a timed promise function with timeout 0 and keeps the invariant |
| LeaderFollower.LeaderFollowerQueue.SettlePromise | src/shared/leader-follower.ts:51-61 | for an inner promise not yet settled, clears the timer, records the outcome unless one exists, calls the callback, and keeps the invariant |
| LeaderFollower.LeaderFollowerQueue.TimerFires | src/shared/leader-follower.ts:40-48 | calls the callback, records the timeout unless an outcome exists, and keeps the invariant |

## Left out

- Streams, `Blob` reads, the demuxer, the encoder, the decoder and the
  benchmark driver are not part of this model.
  - The stream stages are modelled by the functions they apply to each chunk
    (`transform`) and at the end (`flush`).
  - `controller.terminate()` and the `start()` no-ops have no counterpart.
- ArrayUtils.SearchPattern: requires a non-empty pattern. With an empty
  pattern and a non-empty text the source loop never terminates; with an
  empty text it returns no matches. The empty-pattern case is left
  unspecified.
  The start code used by the stage is non-empty.
- NaluTransformer: only the four-byte start code is recognised, as in the
  code. A three-byte `00 00 01` start code is not, and it stays inside the
  unit.
- NaluTransformer: splitting a stream into chunks at different places can
  give different units when a start code straddles two chunks. The model
  states what each call does and does not claim independence from chunk
  boundaries.
- ChunkTransformer: the frame rate is a positive whole number. The source
  takes a JavaScript number, possibly fractional, and computes in floating
  point. The chunk's `data` field (`completeNalu`, which the `AvcNalu`
  record of this codebase does not define) is not modelled.
- ChunkTransformer: `controller.enqueue(undefined)` for a non-slice unit is
  modelled as `None`.
- Bitstream: `parseSPS` comes from an external library. It is a function
  parameter returning a parsed SPS or an error message. Its exceptions
  become `Failure` values.
- Bitstream.CodedHeightAgainstStandard: states the code's height formula as
  written. For field-coded streams the code doubles the vertical crop with
  factor 2 instead of 4. The lemma pins down the difference rather than
  correcting it.
- Bitstream: the `}` after the level digits, and `toString(16)` of values
  above 255 (which give more than two digits), are modelled exactly as the
  code produces them.
- BlockingQueue: the `onSpareCapacity` callback is declared but never
  invoked by the class, so it is not modelled.
- BlockingQueue: a single waiting-pull slot and a single waiting-push slot
  are modelled, as in the code.
  - Several concurrent pullers or pushers overwrite each other's resolvers.
  - The model tracks only the most recent one.
- BlockingQueue: `close` resolves a waiting pull without clearing the slot.
  The model follows that. A second resolve of a settled promise has no
  effect and is not tracked.
- BlockingQueue: a JavaScript `undefined` pushed as a value is
  indistinguishable from an empty buffer in `pull`. The model's values are
  never `undefined`.
- BlockingQueue: error messages are strings. The rejected promise of a
  closed push is a `Failure` result.
- LeaderFollower: the enqueued functions are opaque.
  - A function is represented by a name, or by a timed-promise descriptor
    with its timeout.
  - What a function does when called is outside the model.
  - Its calls of `nextCallback` are the external `Callback` event.
- LeaderFollower: asynchrony is modelled as events driven by explicit method
  calls:
  - the deferred tick;
  - the timer firing;
  - the inner promise settling.
- LeaderFollower: the warning text is not modelled; console output is a
  ghost counter. The timeout error message (`errorMessage ||` default) is
  not modelled either; the outcome is recorded as `TimedOut`.
- LeaderFollower.LeaderFollowerQueue.CreateTimedPromise: the default
  timeout argument (`DefaultTimeoutMillis`, 5000) is a constant. Callers
  pass the timeout explicitly.
- LeaderFollower: the resolved value or rejection reason of a promise is not
  modelled, only whether it was fulfilled, rejected or timed out.
