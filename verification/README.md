# Module bus and benchmark verification

A Dafny 4.11 model, with proofs, of two parts of the repository.

**The shared-memory module bus** (`server-go/bus`). Processes exchange 64-byte frames and inline
payloads over pairs of single-producer, single-consumer rings in shared memory. A caller cuts a
request into fragments that fit its inline budget; a serving process reassembles them, runs a
handler in a goroutine of its own, and cuts the answer into fragments again. The model follows
the layers upwards:

- `Wrappers`: the shared option type.
- `LittleEndian`, `Bits`: machine words, their bytes, and bit masks.
- `Wire`, `ModuleProtocol`: the frame header and the message header inside a payload; `Layouts`:
  the byte offsets of these and of all benchmark records, and which byte strings are accepted.
- `Ring.dfy` (module `SharedRing`), `RingProtocol`: the ring as a class over its bytes, and the
  same ring with every load, store and slot byte a separate step of two interleaved sides.
- `Events`, `Client`: what emit writes and what Poll reads.
- `RingEmission`: emit as the producer of the interleaved ring, byte by byte.
- `Fragments`, `Reply`, `Caller`, `Waits`: cutting and joining bodies; both sides as imperative code
  against a scripted bus; what ends a wait, and as what.
- `Serving`, `Server`, `ServerResults`, `ServerReplies`, `ServerAccounts`, `ServerAnswers`,
  `ServerOutcomes`, `Reassembly`: one turn of the serving loop, then the loop and its handler
  goroutines as a state machine, and what holds on its runs: order, accounts, what becomes of a
  handler's response, and that the tables do what the history of events calls for.
- `Requests`, `EndToEnd`, `Shuffle`, `ShuffleReplies`: one call across caller, relay, loop and
  handlers; and any interleaving of any number of request streams, and how often each is answered.
- `FullStack`, `CallsReturn`: that call with a ring in each direction as its carrier, and that for
  every request and response some run of it returns.

**The benchmark arithmetic** (`server-go/modules/benchmarks`, `src/modules/benchmarks`). Retrieval
metrics that exist three times, latency percentiles that exist twice, the wire records both
languages share, and the evaluation code around them:

- `Ranking`: MRR, nDCG and recall at k, for any positive strictly decreasing discount.
- `Latency`: the in-place exchange sort, percentile positions, summaries, the sample buffer.
- `WordLists`, `BenchmarkWire`, `BenchmarkProcess`: records, codecs, and both handlers.
- `Aggregation`: averages overall and by bucket.
- `ContextPacking`, `Answers`: greedy context packing, answer normalisation and exact match.

`dafny verify dfyconfig.toml` checks everything.

## How to read it

Code that works by changing things step by step is a method over arrays or class fields; its
`ensures` equates its result with a function of its input, and lemmas state what that function
means. Concurrent behaviour is a state machine: an action type, a predicate that says when an
action may happen, a function that performs it, and an invariant proved of every step and hence
of every run. The main theorems are

- `EndToEnd.CallReturnsTheHandlersAnswer`: when a call returns a body, exactly one handler was
  started for it, with the complete request, and the body is its complete OK response;
- `FullStack.CallOverRings`: the same over shared memory, with every byte write, index load and
  index store of both rings a step of its own; `FullStack.RunIsAbstract`: every such run is a run
  of the abstract call; `CallsReturn.CallCanReturnOverRings`: calls of any size do return;
- `Shuffle.EveryShuffleReassembles`: interleaved streams, any number of them among any other
  traffic, never disturb each other; `ShuffleReplies.OneReplyWithRoom`: each of them is answered
  at most once;
- `RingProtocol.EveryInterleaving` and `RingEmission.EmitReachesPoll`: the ring is a queue
  under every interleaving, and hands over each emitted event once, in order, unchanged;
- `Reassembly.EveryPollIsDue`: for any traffic whatever, the loop does with each event what the
  fragments polled before it call for; `ServerOutcomes.FlagDecides` and `ServerOutcomes.ClockDecides`:
  what a handler's last look at its flag or at the clock makes of its response, for good;
  `Waits.OutcomeExactly`: the outcome of any wait, told by the first poll that decides it;
- `ServerResults.NoHandlerBlocks`, `ServerResults.DrainTerminates`, `ServerOutcomes.ContextEndCloses`,
  `ServerReplies.RepliesAreConserved`, `ServerAccounts.RepliesPerCorrelation`,
  `ServerReplies.EarlierRepliesLeaveFirst`, `ServerReplies.CancelInTimeWins`,
  `ServerAnswers.OkRepliesAreHandlerAnswers`;
- `Ranking.HitGains`, `Ranking.NdcgIsOneWhenPerfect`, `Ranking.BoundedExactlyWithoutRepeats`;
- `BenchmarkWire.ScoreRequestsRoundTrip`, `BenchmarkProcess.EveryLatencyAnswerIsAccepted`,
  `BenchmarkProcess.LatencyAnswerFigures`, `BenchmarkProcess.LatencyProgramsAgree`,
  `BenchmarkProcess.BytesAgreeExactlyWithoutBothZeros`;
- `Aggregation.RunWithLatency`, `ContextPacking.KeptExactly`, `ContextPacking.PackedRespectsLimits`,
  `ContextPacking.SafeLimits`,
  `Answers.NormalIsIdempotent`, `Answers.MatchMeansSameWords`.

Some obvious stronger claims are false of the code, and the model says what is true instead:

- Recall and nDCG can exceed 1 when a result repeats. `Ranking.BoundedExactlyWithoutRepeats`
  shows that the lists without a repeat in their first k are exactly the ones that score at most
  1 for every relevance list; `Ranking.RepeatedHitCountsTwice` is the case the repository's own
  test pins (`server-go/modules/benchmarks/benchmarks_test.go:85-87`).
- A correlation can be answered more than once: `ServerAccounts.AnsweredTwice` is a run on which
  two terminal replies of one correlation leave. A caller that sends a correlation once, as the
  fragments of one valid request, is answered at most once if its fragments find room
  (`ShuffleReplies.OneReplyWithRoom`; at most 16 callers always find it,
  `ShuffleReplies.SixteenAnsweredOnce`), and whatever the room exactly when its body fits one
  fragment (`ShuffleReplies.OneReplyExactlyForOneFragment`): a longer one that meets full tables is
  refused fragment by fragment. `ServerAccounts.RepliesPerCorrelation` gives the accounts of every
  correlation on every run.
- `Poll` takes a slice of a slot whose bounds can be out of order when the 64-bit sum of reference
  and length wraps: `Events.WrappedReference` is such a slot, `Events.PanicsWhenReferenceWraps`
  gives the exact frames; a frame that passed the placement check, or that emit built, is never
  one of them.
- The occupancy a third party reads can exceed the capacity: `RingProtocol.CountCanExceed` is a
  run on which it does, `RingProtocol.CountByObserver` says exactly when.
- The online and the offline percentile differ, for instance the 95th of 20 samples
  (`Latency.PositionsDiffer`); `Latency.OnlineEqualsOffline` says exactly when they coincide.
- A call that is given up attempts a cancel only when its wait fails, not when sending fails half
  way: `Caller.HalfSentCall` is such a call, `Caller.ModuleCaller.Call` says which is which.
- The two latency handlers need not answer with the same bytes, because neither library sort
  promises an order for 0 and minus 0, which compare equal. Their answers always compare equal
  figure by figure, and `BenchmarkProcess.BytesAgreeExactlyWithoutBothZeros` shows that the bytes
  are settled exactly for the lists that do not hold both zeros.
- Context packing formats each line into a fixed buffer and copies the length the line would
  have had. `ContextPacking.SafeLimits` says exactly which limits keep every copy inside that
  buffer, whatever the results; a budget below 192 tokens with a larger
  output does not, for a result of 2300 characters for instance.

## Model

| member | source | states |
|---|---|---|
| LittleEndian.GetOfPut | src/modules/benchmarks/include/aimee/benchmarks/module_api.h:46-72 | a word that fits its width is read back as it was written |
| LittleEndian.PutOfGet | src/modules/benchmarks/include/aimee/benchmarks/module_api.h:46-72 | every byte string of a width is the writing of exactly one word |
| LittleEndian.ByteOfWord | src/modules/benchmarks/include/aimee/benchmarks/module_api.h:46-72 | byte i of a word has the weight 256 to the i |
| LittleEndian.Store | src/modules/benchmarks/include/aimee/benchmarks/module_api.h:46-64 | the store loop overwrites exactly the bytes of its word |
| Bits.MaskIsModulo | server-go/bus/ring.go:88-91 | masking an index with a power of two less one is reduction modulo the power |
| Bits.PowerOfTwoTest | server-go/bus/wire.go:111 | a positive word shares no bit with its predecessor exactly when it is a power of two |
| Wire.ExactlyOnePattern | server-go/bus/wire.go:111-158 | the pattern test accepts exactly the flag words with one of the four message patterns set |
| Wire.ValidateIsWellFormed | server-go/bus/wire.go:114-158 | Validate accepts exactly the well-formed frames: known flags, one pattern, payload flags and lengths that agree, correlation where the pattern needs one |
| Wire.ErrorsExactly | server-go/bus/wire.go:114-158 | which error a rejected frame gets: version first; correlation exactly when another correlation would do; length when flags and placement are right and the length is beyond the bound, or absent beside a reference; flags otherwise |
| Wire.DecodeOfEncode | server-go/bus/wire.go:164-218 | a valid frame survives encoding and decoding, whatever bytes follow |
| Wire.EncodeOfDecode | server-go/bus/wire.go:193-218 | an accepted header is the encoding of the frame it decodes to, and that frame is valid |
| Wire.DecodeErrors | server-go/bus/wire.go:193-218 | short input and a foreign magic, and nothing else, are reported as such |
| Wire.PatternPartition | server-go/bus/module_runtime.go:345-355 | a decoded frame has exactly one pattern, so cancel, request and the rest partition the events, and the first two carry a correlation |
| Wire.PlacementIsExact | server-go/bus/wire.go:223-246 | the placement check accepts exactly the well-formed frames whose inline payload lies inside the slot behind the header, in exact arithmetic, or whose arena payload is no longer than the arena |
| Wire.EncodeInto | server-go/bus/wire.go:164-189 | the in-place encoder writes 64 bytes of a valid frame or nothing at all |
| Wire.DecodeInto | server-go/bus/wire.go:193-218 | the decoder through a pointer stores an accepted frame, and on any error keeps what was there and names the error |
| Layouts.FrameHeader | server-go/bus/wire.go:164-189 | the byte offset of every field of a frame header |
| ModuleProtocol.DecodeOfEncode | server-go/bus/module_protocol.go:58-95 | a valid message decodes to itself once its whole body is present |
| ModuleProtocol.DecodeOfTruncated | server-go/bus/module_protocol.go:76-95 | a header whose body is cut short is refused |
| ModuleProtocol.EncodeOfDecode | server-go/bus/module_protocol.go:76-95 | an accepted payload begins with the encoding of its message, which is valid and has its body inside |
| ModuleProtocol.EncodeInto | server-go/bus/module_protocol.go:58-74 | the in-place encoder clears and writes 40 bytes for a valid message with room, otherwise touches nothing |
| Layouts.MessageHeader | server-go/bus/module_protocol.go:58-74 | the byte offset of every field of a message header |
| Layouts.MessageAccepted | server-go/bus/module_protocol.go:76-95 | a payload is taken as a message exactly when its bytes carry magic, version, length, a known operation and status, OK for an invocation, a stage, no flags and a bounded body that is there |
| SharedRing.SlotIsModulo | server-go/bus/ring.go:88-91 | the slot of a wrapped 64-bit index is the slot of the unbounded index |
| SharedRing.SlotsApart | server-go/bus/ring.go:88-103 | indices less than a capacity apart select disjoint slots, across the wrap too |
| SharedRing.PublishAppends | server-go/bus/ring.go:106-109 | advancing head appends the slot just filled to the published queue |
| SharedRing.ReleaseDrops | server-go/bus/ring.go:123-126 | advancing tail removes the oldest published slot |
| SharedRing.FillingIsInvisible | server-go/bus/ring.go:96-103 | writing the slot at head changes no published slot |
| SharedRing.Ring.AttachRing | server-go/bus/ring.go:46-75 | adopts exactly the mappings whose geometry fields agree with each other and with the mapped length and whose indices are within a ring |
| SharedRing.Ring.CountNow | server-go/bus/ring.go:84-86 | the occupancy is the number of published slots |
| SharedRing.Ring.ProduceBegin | server-go/bus/ring.go:96-103 | offers the slot at head, and nothing exactly when the queue is full |
| SharedRing.Ring.ProduceCommit | server-go/bus/ring.go:106-109 | the queue gains the slot at head at its end, and tail and slots stay |
| SharedRing.Ring.ConsumeBegin | server-go/bus/ring.go:113-120 | offers the oldest published slot, and nothing exactly when the queue is empty |
| SharedRing.Ring.ConsumeCommit | server-go/bus/ring.go:123-126 | the queue loses its oldest slot, and head and slots stay |
| SharedRing.Ring.InitRing | server-go/bus/ring.go:130-149 | lays out an empty ring that AttachRing adopts, or refuses a bad geometry or a short mapping |
| RingProtocol.StepKeepsInv | server-go/bus/ring.go:96-126 | every load, store, slot write and Poll step of either side keeps the ring invariant |
| RingProtocol.StepRefinesQueue | server-go/bus/ring.go:96-126 | each step is one enqueue, one dequeue or nothing on the abstract queue, and full and empty are reported exactly when they hold at the load of the other index |
| RingProtocol.EveryInterleaving | server-go/bus/ring.go:96-126 | on every run: occupancy within capacity, deliveries are the published slots' events in order, the slot being filled is never the one being read, and held events are intact |
| RingProtocol.CountByObserver | server-go/bus/ring.go:84-86 | an occupancy read by anyone, head first and tail later, is within the capacity exactly when no slot published after the first load was released before the second; either endpoint's own reading always is |
| RingProtocol.CountCanExceed | server-go/bus/ring.go:84-86 | a ring and a run between the two loads after which the occupancy read exceeds the capacity |
| RingProtocol.HeldPayloadIsStable | server-go/bus/client.go:279-305 | until the next Poll no step changes a byte of the slot a delivered payload refers to |
| RingProtocol.EmittedAreDelivered | server-go/bus/client.go:188-220 | when every published slot holds one event, whoever filled it, Poll hands out exactly those events, each once and in order, and neither drops nor stops |
| Events.PanicsWhenReferenceWraps | server-go/bus/client.go:279-305 | Poll's slice bounds are out of order exactly for inline frames whose reference and length wrap past 2^64 back into the slot |
| Events.OpensExactly | server-go/bus/client.go:279-305 | in exact arithmetic: an inline range that ends inside the slot is handed out, one that ends behind it is not, and one that wraps back in is the panic |
| Events.WrappedReference | server-go/bus/client.go:279-305 | a header that decodes and validates and whose slice bounds are out of order |
| Events.PlacedFramesOpen | server-go/bus/client.go:293-304 | a frame that passes the placement check is delivered with exactly the bytes it refers to |
| Events.SentFlags | server-go/bus/client.go:234-275 | request and reply fragments carry their own pattern bit, no other, and FMore and FInline as asked |
| Events.SentFrameValid | server-go/bus/client.go:234-267 | a fragment frame is valid exactly when its payload respects the wire bound and a non-final one is not empty |
| Events.CancelFrameValid | server-go/bus/client.go:270-275 | a cancel frame is always valid and has neither the request nor the reply pattern |
| Events.NotificationValid | server-go/bus/client.go:222-225 | a notification frame is valid exactly when its payload respects the wire bound |
| Events.SentSlotOpens | server-go/bus/client.go:188-220 | a slot that emit filled opens to the frame and payload it was given |
| Layouts.SentHeader | server-go/bus/client.go:188-220 | the header that emit writes, byte by byte: its arguments, the payload offset 64 if there is a payload, the sender handle, zeros elsewhere |
| Client.Client.Emit | server-go/bus/client.go:188-220 | the checks decide the outcome in their order; success appends one slot that Poll reads as this event, and any failure changes no byte of the ring |
| Client.EmitOutcomes | server-go/bus/client.go:188-220 | each outcome of emit happens under exactly one condition, earlier checks taking precedence |
| Client.Client.Publish | server-go/bus/client.go:222-225 | a notification appends its event; within the budget it fails only by the epoch or a full ring, and any failure changes no byte |
| Client.Client.RequestFragment | server-go/bus/client.go:234-246 | the same for a request fragment, refused without a correlation |
| Client.Client.ReplyFragment | server-go/bus/client.go:255-267 | the same for a reply fragment |
| Client.Client.Cancel | server-go/bus/client.go:270-275 | the same for a cancel, refused without a correlation |
| Client.Client.Poll | server-go/bus/client.go:279-305 | releases the slot of the previous event, then takes the oldest unread slot: an event, a silent drop of a malformed header, nothing, or the panic of a wrapped reference |
| RingEmission.StepKeepsInv | server-go/bus/client.go:188-220 | every step of emit, its bytes written one by one, and of Poll keeps each published slot equal to the event of the call that filled it |
| RingEmission.EmitReachesPoll | server-go/bus/client.go:188-220 | on every interleaving of the single steps of emit and Poll, from any empty ring, Poll hands out exactly the events of the successful calls, each once and in order, and meets neither a malformed slot nor a wrapped reference |
| Fragments.JoinOfSplit | server-go/bus/module_caller.go:134-163 | cutting a body into pieces loses and reorders nothing |
| Fragments.SplitSizes | server-go/bus/module_caller.go:143-149 | all pieces but the last are full, and only the empty body has an empty piece |
| Fragments.SplitCount | server-go/bus/module_runtime.go:236-243 | there are max(1, ceil(length / chunk)) pieces |
| Fragments.PieceAt | server-go/bus/module_caller.go:143-149 | the piece and the more flag that the loop computes at an offset are the next ones of the cut |
| Fragments.PayloadDecodes | server-go/bus/module_runtime.go:244-250 | a fragment's payload decodes to its header with its piece behind it |
| Reply.EffectiveStatus | server-go/bus/module_runtime.go:225-230 | the status that goes out is the given one if that is known and the body within bounds, and Internal otherwise |
| Reply.EffectiveBody | server-go/bus/module_runtime.go:225-230 | the body that goes out is within bounds, empty unless the status is OK, and otherwise the handler's own |
| Reply.FragmentSays | server-go/bus/module_runtime.go:236-250 | every fragment of a reply decodes to a result of the stage and trace it answers, with the effective status, no deadline and its piece of the body behind the header; all but the last announce more |
| Reply.FullButLast | server-go/bus/module_runtime.go:231-243 | every fragment is within the inline budget and all but the last fill it exactly |
| Reply.ReplyModuleResult | server-go/bus/module_runtime.go:223-275 | whatever each attempt meets, the fragments leave exactly once and contiguously, or a proper prefix of them followed by the error of the attempt that stopped it; a ring that is only full for a while never makes it fail |
| Reply.FailureHasReason | server-go/bus/module_runtime.go:251-271 | a failed delivery names the first attempt that was neither taken nor a pause, and sent what was taken before it |
| Reply.Deliver | server-go/bus/module_runtime.go:251-271 | a fragment is retried until it is taken once, or the context, the epoch or the bus ends the attempt with nothing sent and the error that names it |
| Reply.InvalidModuleRequest | server-go/bus/module_runtime.go:277-284 | a refusal is one empty InvalidRequest result under the selected stage, or stage 1; when it does not get through nothing was sent |
| Caller.ForeignTrafficIsIgnored | server-go/bus/module_caller.go:173-201 | idle polls and events of other calls, in any number and place, do not change what a wait returns |
| Caller.ReplyIsRebuilt | server-go/bus/module_caller.go:199-222 | the fragments of an OK reply, however it was cut, give back its body |
| Caller.ErrorReplyEndsWait | server-go/bus/module_caller.go:202-208 | an error result for the call ends the wait with exactly its status, whatever was held |
| Waits.PassingIsIgnored | server-go/bus/module_caller.go:173-201 | idle polls, events of other calls or kinds, undecodable events and events that are no result change nothing, in any number |
| Waits.IdlePollEndsWait | server-go/bus/module_caller.go:177-186 | an idle poll ends a wait whose context has ended, and otherwise one whose deadline has passed, whatever is held and whatever passed before |
| Waits.OutcomeExactly | server-go/bus/module_caller.go:169-223 | a wait has an outcome exactly when some poll decides it as that and no earlier one decides: broken bus, ended context, passed deadline, absent capability, rejection, error status, body over the limit, or the complete body |
| Waits.DeadlineExactly | server-go/bus/module_caller.go:177-186 | a wait ends as past its deadline exactly when an idle poll finds it so, with the context alive, before any deciding poll |
| Caller.ModuleCaller.Send | server-go/bus/module_caller.go:134-163 | exactly as many fragments leave, in order, as the bus accepts before its first refusal, and the call fails exactly when that is not all of them |
| Caller.ModuleCaller.FillFrame | server-go/bus/module_caller.go:150-157 | the reused frame buffer sends exactly header and piece, never stale bytes |
| Caller.ModuleCaller.AwaitReply | server-go/bus/module_caller.go:169-223 | consumes polls until the one outcome Await defines for their sequence, which Waits.OutcomeExactly characterises |
| Caller.ModuleCaller.Call | server-go/bus/module_caller.go:96-130 | each call that sends uses a correlation of its own; a failed wait attempts one cancel for it, which the bus may refuse without changing the outcome, a failed send none, an oversized request nothing at all |
| Caller.HalfSentCall | server-go/bus/module_caller.go:96-130 | a call whose second fragment is refused has sent one fragment and attempts no cancel |
| Serving.ValidateModuleConfig | server-go/bus/module_runtime.go:112-128 | accepts exactly the complete stage lists without zero or repeated kinds, and returns the function they denote |
| Serving.ServingLoop.HandleEvent | server-go/bus/module_runtime.go:345-428 | one event through the loop body changes tables, cancel flags and job counter as Handle says, which Reassembly.EveryPollIsDue determines from the history, with at most one answer or one started job |
| Serving.ServingLoop.Assemble | server-go/bus/module_runtime.go:375-428 | an acceptable fragment is refused for want of room, buffered, or completes its request, as Reassembly.EveryPollIsDue says of it |
| Serving.OtherCorrelationsUntouched | server-go/bus/module_runtime.go:345-427 | an event never changes the assembly or the job of another correlation |
| Serving.AnswerForgets | server-go/bus/module_runtime.go:346-419 | after an answer, a start or a cancel nothing of that correlation stays assembled |
| Serving.HandleKeepsTables | server-go/bus/module_runtime.go:298-427 | at most 16 assemblies and 16 jobs, no correlation in both tables, no assembly over the body bound |
| Server.HandleStartsOrKeeps | server-go/bus/module_runtime.go:357-427 | only a started job changes the job table, by adding itself under its own unused correlation |
| Server.StepKeepsInv | server-go/bus/module_runtime.go:196-429 | every step of the loop or of a handler keeps tables and goroutines in correspondence: each job has exactly one running handler or one queued result |
| Server.RunKeepsInv | server-go/bus/module_runtime.go:196-429 | and so does every run |
| Reassembly.EveryPollIsDue | server-go/bus/module_runtime.go:345-428 | at every poll of every run and for any event, the disposition is the one that the fragments buffered for the correlation since its last answer, start or cancel call for, with deadline, handler and room checked in order, and a started job gets exactly their bodies |
| Reassembly.EveryFateIsExplained | server-go/bus/module_runtime.go:345-428 | on every run every polled event met such a fate |
| Reassembly.NothingStartsLate | server-go/bus/module_runtime.go:400-406 | on every run no job was started by an event polled at or after its deadline, and none refused as late before it |
| Reassembly.RefusalsAnswerEvents | server-go/bus/module_runtime.go:357-419 | on every run the refusals are those of the refused events, in their order, with the kind and correlation of the event and the stage, trace and status it was due |
| ServerResults.NoHandlerBlocks | server-go/bus/module_runtime.go:298-323 | in every reachable state, also after the loop has returned, a handler with its result ready finds room in the channel |
| ServerResults.DrainStepDecreases | server-go/bus/module_runtime.go:315-323 | every step after the context ended uses up part of a finite budget |
| ServerResults.DrainProgress | server-go/bus/module_runtime.go:315-323 | the drain can always go on, and waits for a handler's own return only when every handler is still inside its function |
| ServerResults.DrainTerminates | server-go/bus/module_runtime.go:315-323 | so the shutdown drain ends, with no job and no handler left |
| ServerReplies.EarlierRepliesLeaveFirst | server-go/bus/module_runtime.go:302-427 | fragments leave in the order their replies were begun, those of a reply under way or abandoned included, so the error for a rejected fragment precedes every later reply |
| ServerReplies.RepliesAreConserved | server-go/bus/module_runtime.go:286-427 | on every run, failed ones included, final fragments plus the one of a reply under way or abandoned are rejections plus finished jobs, and started jobs are finished, dropped by the drain or still held |
| ServerReplies.JobsAreReportedOnce | server-go/bus/module_runtime.go:286-307 | on every run no job is reported twice |
| ServerAccounts.StepKeepsBooks | server-go/bus/module_runtime.go:286-427 | every step keeps the accounts of every correlation |
| ServerAccounts.RepliesPerCorrelation | server-go/bus/module_runtime.go:286-427 | on every run and for every correlation: replies begun are its refused events plus its finished jobs; its started jobs are finished, dropped or held; there is at most one reply exactly when at most one event was refused or finished; and never more replies than events |
| ServerAccounts.AnsweredTwice | server-go/bus/module_runtime.go:357-419 | a run of the process after which two terminal replies of one correlation are out |
| ServerReplies.OneFinal | server-go/bus/module_runtime.go:236-273 | exactly the last fragment of a reply lacks FMore |
| ServerReplies.AnswersAreErrors | server-go/bus/module_runtime.go:357-419 | an immediate answer names a stage and an error status, and answers only requests |
| ServerReplies.EveryReplyIsValid | server-go/bus/module_runtime.go:196-275 | every fragment on any run is within the budget, a valid frame and a decodable result message, and non-OK replies are empty |
| ServerReplies.CancelInTimeWins | server-go/bus/module_runtime.go:346-352 | a cancel taken before a handler loads its flag makes its result and its reply Cancelled with an empty body on every continuation |
| ServerOutcomes.EveryResultIsLawful | server-go/bus/module_runtime.go:196-221 | on every run each result is the status the handler returned, with its body if OK; Internal for an unknown status or an oversized body; Cancelled with a cancel seen; or DeadlineExceeded for a job with a deadline |
| ServerOutcomes.FlagDecides | server-go/bus/module_runtime.go:212-214 | a set flag at the handler's look makes the job Cancelled on every continuation; a clear one, without a deadline, lets the handler's own status stand |
| ServerOutcomes.ClockDecides | server-go/bus/module_runtime.go:215-221 | a clock reading at or past the deadline makes the job DeadlineExceeded on every continuation; an earlier one, or none, lets the handler's own status stand |
| ServerOutcomes.EmitsExactly | server-go/bus/module_runtime.go:251-271 | the loop's emits deliver each fragment once and in order, retry while the ring is full, and stop with the rest unsent at anything else |
| ServerOutcomes.ContextEndCloses | server-go/bus/module_runtime.go:309-323 | after the context ended nothing more is taken, begun or sent, the loop returns only without jobs, and handlers that had not looked at their flag end as Cancelled |
| ServerOutcomes.PollsLookFirst | server-go/bus/module_runtime.go:298-345 | between two polls the loop has found no result waiting, its context alive and its epoch unchanged, and has read the clock it compares deadlines with |
| ServerOutcomes.EpochOrBusEndsLoop | server-go/bus/module_runtime.go:324-344 | after a changed epoch or a broken bus nothing is taken, begun or sent any more |
| ServerAnswers.OkRepliesAreHandlerAnswers | server-go/bus/module_runtime.go:196-291 | an OK reply is the OK response of the one invocation it answers, addressed as that invocation was |
| Requests.FragmentSays | server-go/bus/module_caller.go:134-157 | every request fragment decodes to an invocation of the stage with the deadline and trace of the call and its piece of the body behind the header; all but the last announce more |
| Requests.HandleDecides | server-go/bus/module_runtime.go:357-427 | what the loop does with the next fragment of an intact request is decided by stage, room, body length, deadline, handler and job count, in that order |
| Requests.NextFragment | server-go/bus/module_runtime.go:375-427 | it is buffered, starts a job with exactly the complete body when it is the last, or is refused with an error |
| Requests.LastFragment | server-go/bus/module_runtime.go:398-427 | the last fragment is answered DeadlineExceeded exactly when the deadline has passed, otherwise CapabilityAbsent exactly without a handler, otherwise Internal exactly with 16 jobs, and otherwise starts its job |
| Requests.RefusedOnlyWithoutRoom | server-go/bus/module_runtime.go:357-419 | it is refused exactly for want of a stage, room, time or a handler, or for too long a body; with everything else given, only for its passed deadline |
| Requests.RefusedAtFullTables | server-go/bus/module_runtime.go:375-384 | a fragment without an assembly of its own that meets full tables is answered Internal and changes nothing, whichever of its request it is |
| EndToEnd.WaitIsAwait | server-go/bus/module_caller.go:169-223 | one step of the caller consumes one poll as the imperative wait does |
| EndToEnd.ReturnIsAwait | server-go/bus/module_caller.go:169-223 | on every run a waiting call that returns does so with what the imperative wait makes of the polls it consumed, whatever else happened in between |
| EndToEnd.OwnEventKeepsSide | server-go/bus/module_runtime.go:345-427 | after each fragment the call is refused with its error first in line, still intact, or complete with one handler started |
| EndToEnd.MineOfFlatten | server-go/bus/module_runtime.go:223-291 | selecting one correlation's replies and cutting them into fragments commute |
| EndToEnd.ReadStep | server-go/bus/module_caller.go:191-222 | reading the next fragment of the first reply fails, extends the held prefix, or completes it |
| EndToEnd.StepKeepsSystem | server-go/bus/module_runtime.go:293-429 | every step of caller, relay, loop or handler keeps the system invariant |
| EndToEnd.CallReturnsTheHandlersAnswer | server-go/bus/module_caller.go:96-130 | on every run, when the call returns a body exactly one handler was started for it, on the complete request, and the body is its complete OK response |
| FullStack.UpHandsOver | server-go/bus/client.go:188-305 | what emit publishes, an emit that fails and what Poll of the process takes is each an enabled step of the abstract call: its next fragment, its failed send, or other traffic |
| FullStack.DownHandsOver | server-go/bus/client.go:188-305 | what the loop publishes or fails to publish is the fragment it is at, and what the caller polls is the next reply, which a waiting call may look at |
| FullStack.StepKeepsInv | server-go/bus/client.go:188-305 | every single step of emit and Poll on either ring, of the caller, the loop or a handler keeps the rings and the call in agreement |
| FullStack.RunIsAbstract | server-go/bus/client.go:188-305 | every run over the rings is, seen from caller and process, a run of the abstract call |
| FullStack.CallOverRings | server-go/bus/module_caller.go:96-130 | on every interleaving of byte writes, index loads and stores, both loops and the handlers, a returned body is the complete OK response of the one handler started, on the complete request, and both rings hand over whole events in order |
| CallsReturn.CallCanReturnOverRings | server-go/bus/module_caller.go:96-130 | over any two fresh rings whose slots hold the fragments, for every request and every response within the body bound, of any number of fragments, some run ends with the call returning the response |
| CallsReturn.CallCanReturn | server-go/bus/module_caller.go:96-130 | and some run of the abstract call does |
| Shuffle.FragmentSettles | server-go/bus/module_runtime.go:375-427 | with room for it, the next fragment of a stream is buffered, starts its handler, or has missed its deadline |
| Shuffle.EveryShuffleReassembles | server-go/bus/module_runtime.go:345-427 | in any shuffle of any number of streams among any other traffic, every handler started for a stream that found room for its fragments gets the body its caller split, each such stream starts at most one, and none is refused but for its own deadline |
| Shuffle.SixteenAlwaysFit | server-go/bus/module_runtime.go:360-414 | at most 16 streams with the process to themselves always find room |
| ShuffleReplies.OneReplyWithRoom | server-go/bus/module_runtime.go:345-427 | in any shuffle of any number of streams among any other traffic, a stream that found room for its fragments is answered at most once |
| ShuffleReplies.SixteenAnsweredOnce | server-go/bus/module_runtime.go:345-427 | at most 16 streams with the process to themselves are answered at most once each |
| ShuffleReplies.NoMoreRepliesThanFragments | server-go/bus/module_runtime.go:345-427 | with or without room, a stream gets no more replies than it has fragments |
| ShuffleReplies.AnsweredPerFragment | server-go/bus/module_runtime.go:375-384 | for every request of several fragments there is a run on which two of them meet full tables and both are answered |
| ShuffleReplies.OneReplyExactlyForOneFragment | server-go/bus/module_runtime.go:345-427 | a correlation sent once is answered at most once on every run exactly when its body fits one fragment |
| Ranking.RankIsFirstHit | src/modules/benchmarks/agent_eval.c:533-545 | the rank is the position of the first relevant result, and 0 exactly when there is none |
| Ranking.ReciprocalOfFirstHit | server-go/modules/benchmarks/benchmarks.go:52-62 | MRR is one over the position of the first hit, and 0 without one |
| Ranking.Score | server-go/modules/benchmarks/benchmarks.go:52-81 | the fused loops compute MRR, nDCG and recall for every k from 0 up |
| Ranking.BenchmarkScore | src/modules/benchmarks/module_adapter.c:15-46 | so does the fixture |
| Ranking.IrMrr | src/modules/benchmarks/agent_eval.c:475-483 | the offline MRR is the reciprocal of the rank, or 0 |
| Ranking.IrNdcgAtK | src/modules/benchmarks/agent_eval.c:485-507 | the offline nDCG is the same metric, for every k of either sign |
| Ranking.IrRecallAtK | src/modules/benchmarks/agent_eval.c:509-522 | the offline recall is the same metric, for every k of either sign |
| Ranking.FindRank | src/modules/benchmarks/agent_eval.c:533-545 | the nested loops find the rank |
| Ranking.RankWithinKIsRecall | src/modules/benchmarks/agent_eval.c:509-545 | the rank is among the first k exactly when recall at k is positive |
| Ranking.RecallIsShare | src/modules/benchmarks/agent_eval.c:509-522 | without repeats, recall is the number of distinct relevant ids retrieved over the relevant entries |
| Ranking.HitGains | server-go/modules/benchmarks/benchmarks.go:63-72 | a hit gains exactly the discount of its own position, whatever stands before and behind it |
| Ranking.SingleHit | server-go/modules/benchmarks/benchmarks.go:63-72 | a single hit gains the discount of its position |
| Ranking.GainsAdd | server-go/modules/benchmarks/benchmarks.go:63-72 | gains and hits of relevance lists without a common id add up |
| Ranking.OneFoundAtRank | server-go/modules/benchmarks/benchmarks.go:63-80 | one relevant id found once at rank r within k has nDCG d(r-1)/d(0), recall 1 and MRR 1/r |
| Ranking.GainIsAtMostIdeal | src/modules/benchmarks/agent_eval.c:492-504 | h hits gain at most what the first h positions offer, with equality exactly when they are the first h results |
| Ranking.MetricsAreBounded | server-go/modules/benchmarks/benchmarks.go:52-81 | without repeats both metrics lie between 0 and 1 |
| Ranking.NdcgIsOneWhenPerfect | server-go/modules/benchmarks/benchmarks.go:63-80 | nDCG is 1 exactly when the first min(relevant, k) results exist and are all relevant, for every discount |
| Ranking.RepeatsExceedOne | server-go/modules/benchmarks/benchmarks.go:63-80 | a list with a repeat in its first k has a relevance list for which both metrics exceed 1 |
| Ranking.BoundedExactlyWithoutRepeats | server-go/modules/benchmarks/benchmarks.go:63-80 | so exactly the lists without a repeat in their first k score at most 1 for every relevance list |
| Ranking.RepeatedHitCountsTwice | server-go/modules/benchmarks/benchmarks_test.go:85-87 | the pinned case: recall 2 and nDCG 1 plus the ratio of the first two discounts |
| Latency.SettleMinimum | src/modules/benchmarks/agent_eval.c:820-831 | the inner exchange loop leaves a minimum in front and permutes only the rest |
| Latency.ExchangeSort | src/modules/benchmarks/agent_eval.c:820-831 | the exchange sort yields an ordered permutation |
| Latency.LibrarySort | src/modules/benchmarks/module_adapter.c:76 | a library sort gives some ordered permutation; the order of samples that compare equal is not promised |
| Latency.SortsAgree | src/modules/benchmarks/module_adapter.c:76-84 | any two sorts of the same samples agree in value at every position |
| Latency.PositionsInRange | server-go/modules/benchmarks/benchmarks.go:125-128 | both percentile positions are inside the samples, and the fixture's clamp never acts |
| Latency.OnlineAgainstOffline | server-go/modules/benchmarks/benchmarks.go:125-128 | from the median upwards the online position is the offline one or the one before, and the same at the median |
| Latency.OnlineEqualsOffline | src/modules/benchmarks/agent_eval.c:835-837 | they coincide exactly when the remainder of n times p by 100 is at least p - 50 |
| Latency.PositionsDiffer | src/modules/benchmarks/agent_eval.c:835-837 | of 20 samples the 95th percentile is at position 18 online and 19 offline |
| Latency.SummariesCompare | server-go/modules/benchmarks/benchmarks.go:155-162 | both summaries ascend from minimum to maximum, and the offline percentiles are never below the online ones |
| Latency.OnlinePercentiles | server-go/modules/benchmarks/benchmarks.go:125-128 | each online figure stands at a position within half a step of its own percentage of the way, and the extremes at the ends |
| Latency.OfflinePercentiles | src/modules/benchmarks/agent_eval.c:833-837 | each offline figure stands at the position its own percentage of the number of samples falls into |
| Latency.SummaryOfSamples | src/modules/benchmarks/agent_eval.c:833-837 | minimum and maximum bound every sample and every figure is one of the samples |
| Latency.LatencyFinalize | src/modules/benchmarks/agent_eval.c:806-839 | the summary of a sorted copy, or zeros without samples or memory |
| Latency.SampleBuffer.Append | src/modules/benchmarks/agent_eval_memory_support.c:1178-1193 | appends one sample, doubling full storage; without memory nothing changes |
| WordLists.ZeroPadding | src/modules/benchmarks/include/aimee/benchmarks/module_api.h:74-80 | the padding loop accepts exactly all-zero bytes |
| WordLists.BlockIsUnique | src/modules/benchmarks/include/aimee/benchmarks/module_api.h:98-103 | a zero-padded block determines its words and the words their block |
| BenchmarkWire.SignedIsUnsigned | src/modules/benchmarks/include/aimee/benchmarks/module_api.h:98-136 | signed ids and their unsigned words determine each other |
| BenchmarkWire.AcceptanceAgrees | server-go/modules/benchmarks/benchmarks.go:146-149 | the Go and the C test accept the same doubles: finite and not below zero, minus zero included |
| BenchmarkWire.ScoreRequestsRoundTrip | src/modules/benchmarks/include/aimee/benchmarks/module_api.h:82-141 | a byte string is accepted as a request exactly when it is that valid request's encoding |
| BenchmarkWire.EncodeScoreRequest | src/modules/benchmarks/include/aimee/benchmarks/module_api.h:82-105 | writes the whole record, or reports an error and touches nothing |
| BenchmarkWire.DecodeScoreRequest | src/modules/benchmarks/include/aimee/benchmarks/module_api.h:107-141 | the C decoder fills its buffers with the decoded lists, or leaves them alone |
| BenchmarkWire.ParseScoreRequest | server-go/modules/benchmarks/benchmarks.go:83-114 | the Go handler accepts the same byte strings and extracts the same lists and k |
| BenchmarkWire.ScoresRoundTrip | src/modules/benchmarks/include/aimee/benchmarks/module_api.h:143-177 | a byte string decodes to three scores exactly when it is their encoding |
| BenchmarkWire.LatencyRequestsRoundTrip | src/modules/benchmarks/include/aimee/benchmarks/module_api.h:197-244 | a byte string is accepted as latencies exactly when it is the encoding of a valid list |
| BenchmarkWire.EncodeLatencyRequest | src/modules/benchmarks/include/aimee/benchmarks/module_api.h:197-216 | succeeds exactly on valid lists with room, and then writes the whole record |
| BenchmarkWire.DecodeLatencyRequest | src/modules/benchmarks/include/aimee/benchmarks/module_api.h:218-244 | the C decoder accepts exactly those byte strings its buffer has room for |
| BenchmarkWire.ParseLatencyRequest | server-go/modules/benchmarks/benchmarks.go:130-150 | and the Go handler the same byte strings, with the same values |
| Layouts.ScoreRequest | src/modules/benchmarks/include/aimee/benchmarks/module_api.h:82-105 | the byte offset of every field and id of a score request, and zeros behind the ids |
| Layouts.ScoreRequestAccepted | src/modules/benchmarks/include/aimee/benchmarks/module_api.h:107-141 | which byte strings are accepted as score requests, byte by byte |
| Layouts.ScoreResponse | src/modules/benchmarks/include/aimee/benchmarks/module_api.h:143-160 | the byte offsets of the three scores |
| Layouts.ScoreResponseAccepted | src/modules/benchmarks/include/aimee/benchmarks/module_api.h:162-177 | which byte strings are accepted as scores |
| Layouts.LatencyRequest | src/modules/benchmarks/include/aimee/benchmarks/module_api.h:197-216 | the byte offset of every sample, and zeros behind them |
| Layouts.LatencyRequestAccepted | src/modules/benchmarks/include/aimee/benchmarks/module_api.h:218-244 | which byte strings are accepted as latencies: finite non-negative doubles, minus zero included, and zeros behind them |
| Layouts.LatencyResponse | src/modules/benchmarks/include/aimee/benchmarks/module_api.h:246-266 | the byte offsets of the five figures |
| Layouts.LatencyResponseAccepted | src/modules/benchmarks/include/aimee/benchmarks/module_api.h:268-287 | which byte strings are accepted as answers: finite, non-negative, ascending |
| BenchmarkProcess.AnswersRoundTrip | src/modules/benchmarks/include/aimee/benchmarks/module_api.h:184-287 | the client accepts exactly the encodings of ascending, finite, non-negative summaries |
| BenchmarkProcess.HandleScore | server-go/modules/benchmarks/benchmarks.go:83-123 | validation decides before cancellation, and only an OK answer has bytes: the encoded scores |
| BenchmarkProcess.HandleLatency | server-go/modules/benchmarks/benchmarks.go:130-172 | the same for latencies, with the summary of some sort of them |
| BenchmarkProcess.Handle | server-go/modules/benchmarks/benchmarks.go:175-184 | each stage answers as its handler, any other stage is invalid |
| BenchmarkProcess.EveryLatencyAnswerIsAccepted | src/modules/benchmarks/include/aimee/benchmarks/module_api.h:268-287 | for every valid list and every sort of it, the answer is accepted by the client and decodes to that ascending summary |
| BenchmarkProcess.AnswersCompareEqual | server-go/modules/benchmarks/benchmarks.go:155-162 | answers that rest on different sorts of one list compare equal figure by figure |
| BenchmarkProcess.LatencyAnswerFigures | server-go/modules/benchmarks/benchmarks.go:155-172 | the decoded answer of either program holds the number of samples and, for some sort of them, its ends and the nearest ranks of the 50th, 95th and 99th percentile under their own names |
| BenchmarkProcess.BytesAgreeExactlyWithoutBothZeros | server-go/modules/benchmarks/benchmarks.go:155-172 | all sorts of a valid list give the same answer bytes exactly when the list does not hold both 0 and minus 0 |
| BenchmarkProcess.LatencyProgramsAgree | src/modules/benchmarks/module_adapter.c:61-89 | two programs with sorts of their own give one status and answers that the client accepts and that compare equal, the same bytes unless the request holds both zeros |
| BenchmarkProcess.EveryScoreAnswerIsAccepted | src/modules/benchmarks/include/aimee/benchmarks/module_api.h:162-177 | for every valid request the client decodes the scores of what it sent |
| BenchmarkProcess.FixtureAgrees | src/modules/benchmarks/module_adapter.c:55-84 | however the two sorts order equal samples, the figures of the fixture compare equal to those of the process |
| BenchmarkProcess.EncodeAnswer | src/modules/benchmarks/include/aimee/benchmarks/module_api.h:246-266 | encodes exactly the valid summaries it has room for, and otherwise touches nothing |
| BenchmarkProcess.FixtureHandleLatency | src/modules/benchmarks/module_adapter.c:61-89 | with room for the answer, the fixture answers with the encoded summary of some sort, as the process does, and its encoder never refuses it; without room the request is invalid |
| BenchmarkProcess.FixtureHandle | src/modules/benchmarks/module_adapter.c:91-121 | each stage refuses a buffer too small for its own answer; with room the fixture gives the same scores as the process, given the same discount and number format, and the same latency answer up to the sort |
| Aggregation.BucketAdd | src/modules/benchmarks/agent_eval.c:640-647 | one bucket gains one case and its metrics, the others stay |
| Aggregation.FinalizeBuckets | src/modules/benchmarks/agent_eval.c:649-663 | every bucket with cases becomes its mean, empty ones stay |
| Aggregation.BucketOrder | src/modules/benchmarks/agent_eval.c:665-706 | the buckets stand in the order of their names, other codes under the hybrid route or the unknown shape |
| Aggregation.SumsOfBucket | src/modules/benchmarks/agent_eval.c:640-647 | a bucket holds the number of its own cases and the sums of their reciprocal ranks and recalls at 10 |
| Aggregation.TotalsAreTotals | src/modules/benchmarks/agent_eval.c:887-903 | each of the five totals sums its own metric at its own depth |
| Aggregation.TotalsAdd | src/modules/benchmarks/agent_eval.c:887-903 | totals add up over any division of the cases |
| Aggregation.SumsConserve | src/modules/benchmarks/agent_eval.c:887-903 | over any classification, bucket counts and sums add up to the cases and the totals |
| Aggregation.BucketsConserve | src/modules/benchmarks/agent_eval.c:905-911 | finished buckets of any classification have counts that sum to the cases and count-weighted metrics that sum to the cases times the overall averages |
| Aggregation.RunWithLatency | src/modules/benchmarks/agent_eval.c:841-917 | fails exactly on an empty set or a failed search; otherwise reports the averages, the bucket means, and buckets that conserve; the latency record, if one is wanted, is zeroed on a failed search, holds only the count without memory, and otherwise the summary of the cases |
| ContextPacking.PackedIsSubsequence | src/modules/benchmarks/agent_eval_memory_support.c:399-427 | the context is the lines of a subsequence of the results, in order, numbered 1 to kept |
| ContextPacking.PackedRespectsLimits | src/modules/benchmarks/agent_eval_memory_support.c:399-427 | at most top_k lines, room for the terminator, tokens within the budget unless exactly one line was kept, and used <= 4 * tokens <= used + 3 * kept, as long as no line overran its buffer |
| ContextPacking.SafeLimits | src/modules/benchmarks/agent_eval_memory_support.c:399-427 | no results whatever make a line overrun its buffer exactly when the budget is at least 192 tokens or the output is no larger than the buffer plus two |
| ContextPacking.LeftOutOnlyWithoutRoom | src/modules/benchmarks/agent_eval_memory_support.c:415-421 | a result is packed exactly when there is a line left and its line fits what was packed before it |
| ContextPacking.KeptExactly | src/modules/benchmarks/agent_eval_memory_support.c:395-421 | in numbers: a result is kept exactly when a line is left, its line and the terminator fit behind the lines kept, and, unless it is first, it takes at most half the budget, or all of one below 192, and leaves the budget unexceeded |
| ContextPacking.Defaults | src/modules/benchmarks/agent_eval_memory_support.c:377-380 | ten lines and two thousand tokens unless the caller asks otherwise |
| ContextPacking.ShownIs | src/modules/benchmarks/agent_eval_memory_support.c:402-412 | with at least 192 tokens a content is cut at four characters to each token of half the budget, at most 1596, and marked; otherwise shown whole |
| ContextPacking.LineParts | src/modules/benchmarks/agent_eval_memory_support.c:413 | a line is its number in brackets, a blank, the text and a line feed |
| ContextPacking.DecimalReadsBack | src/modules/benchmarks/agent_eval_memory_support.c:413 | line numbers are digits without a leading zero that read back as the number |
| ContextPacking.EmptyOnlyWithoutRoom | src/modules/benchmarks/agent_eval_memory_support.c:415-421 | nothing is packed exactly when no single line fits the buffer |
| ContextPacking.BuildRetrievalContext | src/modules/benchmarks/agent_eval_memory_support.c:370-432 | says whether some copied line was longer than the line buffer; if none was, the buffer holds the packed text and its terminator and is otherwise untouched, and kept, tokens and the failure codes are as stated |
| Answers.StreamIsJoined | src/modules/benchmarks/agent_eval_memory_support.c:184-198 | the character loop writes the lower-case words joined by single spaces, with at most one more space behind |
| Answers.OneWord | src/modules/benchmarks/agent_eval_memory_support.c:184-198 | letters and digits in a row are one word, capitals made small |
| Answers.WordsApart | src/modules/benchmarks/agent_eval_memory_support.c:184-198 | any other byte separates words |
| Answers.NormalIsCutStream | src/modules/benchmarks/agent_eval_memory_support.c:184-201 | cutting the loop's output and cutting the joined words leave the same text |
| Answers.NormalIsNormal | src/modules/benchmarks/agent_eval_memory_support.c:176-202 | the result has lower-case letters, digits and single inner spaces only, and fits |
| Answers.NormalIsLongest | src/modules/benchmarks/agent_eval_memory_support.c:176-202 | it is the longest beginning of the joined words that fits and does not end in a space |
| Answers.FixedPointsAreNormal | src/modules/benchmarks/agent_eval_memory_support.c:176-202 | the texts that pass unchanged are exactly those in normal form that fit |
| Answers.NormalIsIdempotent | src/modules/benchmarks/agent_eval_memory_support.c:176-202 | normalising twice into one buffer size changes nothing |
| Answers.MatchIsEquivalence | src/modules/benchmarks/agent_eval_memory_support.c:204-211 | exact match is symmetric and transitive, reflexive exactly on answers with a letter or digit |
| Answers.MatchMeansSameWords | src/modules/benchmarks/agent_eval_memory_support.c:204-211 | for answers whose words fit, exact match means the same non-empty list of words |
| Answers.WriteStream | src/modules/benchmarks/agent_eval_memory_support.c:184-198 | the first loop fills the buffer with as much of the stream as fits |
| Answers.NormalizeAnswer | src/modules/benchmarks/agent_eval_memory_support.c:176-202 | the buffer holds the terminated normal form, for every text and buffer size |
| Answers.AnswersExactMatch | src/modules/benchmarks/agent_eval_memory_support.c:204-211 | returns exactly whether the answers match |

## Left out

- Sockets, descriptor passing, mapping and unmapping, heartbeats, logging and sleeping: operating-system plumbing; attaching starts from a mapped ring.
- Clocks and contexts: what a clock reads and when a context ends are supplied to each step; no bound on time is claimed.
- Weak memory ordering: atomic loads and stores are sequentially consistent steps; begin, byte writes and commit stay separate.
- The host between the two sides, its lease table and admission policy: it is not part of this model beyond a lossless relay that keeps kind, correlation, pattern, FMore and payload; correlations of different calls are distinct. In FullStack the rings on either side of the relay are one ring, and other traffic reaches the process beside it.
- Arena payloads: validated and placed, but their bytes are not followed.
- The two rings of a client are disjoint byte arrays, not two ranges of one mapping.
- The stack's standing assumptions: a client's slot size is its rings' slot size, and an inline budget leaves room for a message header and stays within the slot and the wire bound.
- Client.Client.Poll: says nothing about frames after the run-time panic of a wrapped reference, because the process does not continue.
- The branch of awaitReply for a body that ends behind its payload: decoding has already excluded it.
- runModuleClient as one method: its turn is the class ServingLoop, its control flow and the goroutines are the state machine of Server.
- Caller and process of CallsReturn: a run on which they return is given, not that every fair schedule does.
- When the context ends the flags of all jobs are set in one step, where the code sets them one after the other.
- The cancel flag that a handler may consult while it runs, and a handler that panics: a handler is any function that returns.
- IEEE rounding and the value of the logarithm: metrics are real numbers and the discount and the double nearest a score are parameters, the same for Go and C; on the wire doubles are bit patterns whose order is that of their magnitudes.
- Machine limits of C int: products such as n times 99 or four times a token cap are unbounded here.
- A NULL pointer argument where the C code tests it is modelled only when it changes the result; a failing calloc of the latency array is not, because the code then writes through it.
- ContextPacking.BuildRetrievalContext: says nothing about the output once a line longer than its buffer has been copied, because what lies behind that buffer is not part of this model; neither is memory_t.
- Formatting failures of snprintf, and locales other than C.
- The corpus loaders, LoCoMo and LongMemEval runners, JSON rows, baselines, feedback loop, agent execution and judge scores: external calls.
- Regression thresholds, ablation presets, fid lookups and miss reports: they would only add easy members.
