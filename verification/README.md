# Verification of the messaging, benchmark, update and receive logic

This project models the protocol logic of the firmware and its host tools and proves what it keeps.

- **The leased benchmark service.** `BenchmarkSpec` is the state machine; `BenchmarkService` is the firmware's
  service as an object whose methods are proved to follow it; `BenchmarkTicking`, `BenchmarkRuns`,
  `BenchmarkIsolation`, `BenchmarkReplies`, `BenchmarkLimiter`, `BenchmarkCounts`, `BenchmarkStreams` and
  `BenchmarkAnswers` prove its laws over whole runs. `ReferenceSpec`
  and `ReferenceService` model the independent Python service, and `ReferenceSimulation` proves when the two agree.
- **The coordinator.** `CoordinatorSpec` is the firmware's loop as a state machine over a service and its sockets,
  driven by everything a pass learns from outside, with the proof that no stale datagram is ever observable;
  `Coordinator` is the loop itself, proved to follow it; `CoordinatorRuns` shows that its passes are runs of the
  service, `CoordinatorMessages` that only valid messages are ever queued, and `CoordinatorDelivery` that due samples
  and replies are.
- **Schedules and policies.** `Schedule` and `CommandPolicy`.
- **Framing.** `Crc32c` defines the checksum bit by bit (section 12.1 and Appendix B.4 of RFC 3720); `Framing` is
  the trailer.
- **Codecs.** `CsvRecord` is the strict record grammar (section 2 of RFC 4180); `Cells`, `BenchmarkCsv` and
  `BenchmarkDatagram` are the benchmark schema over it. `Wire`, `Protobuf` and `ProtobufCoder` are the generated
  Protocol Buffers coder, written once over tables of fields instead of once per message; `MessagingProtobuf` and
  `MessagingDatagram` instantiate it for the ordinary schema. `BenchmarkColumns` and `Contract` tie both schemas to
  their published profile, tables and contract script, and `PublishedExamples` to published fixtures.
- **Firmware staging.** `Flash` has the layout and two unreliable devices; `FirmwareUpdate` is the upload.
- **The receive path.** `RxChain` has the buffer pool and the linked packet chain.

Bytes, 32-bit and 64-bit numbers are bounded integers with explicit wrapping and saturation, and text is a
sequence of bytes. A float is its bit pattern. Times, random choices, failures and datagrams come from outside
as parameters or as nondeterministic choices, so each theorem holds for all of them.

Where a law does not hold everywhere, the exact condition is part of the statement. A schedule stays on its grid
if and only if the next boundary fits 64 bits (`PublicationSchedule.TakingLands`, missed in
`PublicationSchedule.LastBoundaryIsMissed`). The firmware saturates its deadlines where the host's unbounded
integers go on: an input keeps the two in step if and only if every deadline it sets fits 64 bits
(`ReferenceSimulation.StepAgreesIfItFits`, failing in `ReferenceSimulation.TheyPartAtTheEndOfTheClock`). Events
without effect can be erased from a run on any clock exactly where their readings fade: no lease is held, the next
reading ends the run anyway, or no reading up to it steps back
(`BenchmarkIsolation.ErasureAgreesExactlyIfItFades`, failing in `BenchmarkIsolation.ErasedTickIsMissed`).

## Model

| member | source | states |
|---|---|---|
| BenchmarkService.Pattern | Rust/messaging/src/benchmark/service.rs:47-58 | builds the payload of a token symbol by symbol, or nothing above 512 bytes; the result is the specified pattern |
| BenchmarkService.Service.constructor | Rust/messaging/src/benchmark/service.rs:60-82 | a new service is epoch 1 without a lease, with a full token bucket dated now |
| BenchmarkService.Service.End | Rust/messaging/src/benchmark/service.rs:90-99 | ending a run clears lease and schedules once and moves to the next epoch, or marks the service exhausted after the last |
| BenchmarkService.Service.Tick | Rust/messaging/src/benchmark/service.rs:100-114 | the whole state after a tick: rollback, expiry, then a refill that keeps the phase of the token clock |
| BenchmarkService.Service.Reject | Rust/messaging/src/benchmark/service.rs:115-122 | rejections are counted only during a run, and checksum failures separately |
| BenchmarkService.Service.Handle | Rust/messaging/src/benchmark/service.rs:135-269 | the whole new state and the answer to any request: tick, judgement, effect, reply, reply limiter |
| BenchmarkService.Service.Respond | Rust/messaging/src/benchmark/service.rs:137-261 | the state and reply before the limiter, and that exactly probes and ignored requests bypass it |
| BenchmarkService.Service.Control | Rust/messaging/src/benchmark/service.rs:184-245 | the order of the ten control codes, and the effect of the ones that are applied |
| BenchmarkService.Service.Acquire | Rust/messaging/src/benchmark/service.rs:210-230 | a configure sets schedules, counters and lease together |
| BenchmarkService.Service.Advance | Rust/messaging/src/benchmark/service.rs:278-284 | takes the newest due slot and counts the skipped ones |
| BenchmarkService.Service.Publication | Rust/messaging/src/benchmark/service.rs:271-310 | at most the newest due sample of one stream, and the whole new state |
| BenchmarkService.Service.Sent | Rust/messaging/src/service.rs:102-107 | the outcome of a send is counted and remembered per socket |
| BenchmarkService.Service.Skip | Rust/messaging/src/service.rs:97-101 | skipped slots are counted with saturation at 32 bits |
| BenchmarkTicking.TickTwice | Rust/messaging/src/benchmark/service.rs:100-114 | for last_time <= a <= b, tick(a) then tick(b) gives the same full state as tick(b) |
| BenchmarkTicking.TickingIsPathIndependent | Rust/messaging/src/benchmark/service.rs:100-114 | any nondecreasing series of ticks equals its last tick, so polling frequency cannot be observed |
| BenchmarkRuns.RespondEffect | Rust/messaging/src/benchmark/service.rs:148-260 | which verdicts change the run, and everything an applied control or a stop does to it |
| BenchmarkRuns.HistoryIsPossible | Rust/messaging/src/benchmark/service.rs:135-269 | over any run, later entries lie in this epoch or a later one, and inside a leased epoch belong to its owner with a larger control id |
| BenchmarkRuns.HistoryIsOrdered | Rust/messaging/src/benchmark/service.rs:89-99 | over any run, with any clock: epochs never decrease along applied entries, and two entries of one epoch share peer and session, contain no second configure, nothing after the stop, and strictly increasing control ids |
| BenchmarkRuns.EveryEpochIsConfigured | Rust/messaging/src/benchmark/service.rs:207-230 | every control or probe applied in an epoch is preceded by the configure of that epoch, unless the run already held its lease at the start |
| BenchmarkRuns.EpochNeverDecreases | Rust/messaging/src/benchmark/service.rs:90-99 | no event lowers the epoch or undoes exhaustion |
| BenchmarkRuns.ExhaustionIsFinal | Rust/messaging/src/benchmark/service.rs:191-192 | once exhausted, no control or probe is ever applied and no lease ever granted again |
| BenchmarkRuns.LastRunIsFinal | Rust/messaging/src/benchmark/service.rs:90-99 | however the run of epoch 2^32-1 ends, nothing is applied and no lease is held ever after |
| BenchmarkIsolation.RefusalIsAtomic | Rust/messaging/src/benchmark/service.rs:243-245 | any request that is ignored, only discovers or probes, replays, or is answered with codes 4 to 10 leaves lease, schedules and epoch as the tick alone does |
| BenchmarkIsolation.OnlyTheOwnerIsEffective | Rust/messaging/src/benchmark/service.rs:148-151 | while a lease is held, no request of another peer or session is applied or echoed |
| BenchmarkIsolation.ControlIdentifiesMessage | Rust/messaging/src/benchmark/service.rs:184-200 | comparing stored kind, id and configuration is the same as comparing whole validated messages of one session and epoch |
| BenchmarkIsolation.DuplicateMeansReplay | Rust/messaging/src/benchmark/service.rs:195-200 | code 2 is given exactly when the owner repeats the last applied control in its epoch, and then nothing changes at all |
| BenchmarkIsolation.ReplayIsInert | Rust/messaging/src/benchmark/service.rs:195-241 | replaying an applied configure or renew before the lease expires gives code 2 and changes nothing beyond the clock |
| BenchmarkIsolation.ErasureIsUnobservable | Rust/messaging/src/benchmark/service.rs:135-310 | whole-run non-interference, on a clock that never steps back: erasing every refused, replayed, foreign or merely clocking event from a run leaves lease, schedules and epoch the same at every later time |
| BenchmarkIsolation.RefusalsActLikeTicks | Rust/messaging/src/benchmark/service.rs:135-310 | the same for every run on any clock: with each such event replaced by its reading of the clock the run is the same |
| BenchmarkIsolation.BackwardClockIsFelt | Rust/messaging/src/benchmark/service.rs:101-104 | a refused event dated back ends the run at once, and leaves it alone if and only if no lease is held |
| BenchmarkIsolation.ErasableExactlyIfItFades | Rust/messaging/src/benchmark/service.rs:100-114 | on any clock, leaving out one event without effect shows at the next reading b exactly unless no lease is held, b steps back behind the reading before the event, b reaches the expiry, or neither the event nor b steps back |
| BenchmarkIsolation.ErasureAgreesExactlyIfItFades | Rust/messaging/src/benchmark/service.rs:100-310 | the whole-run theorem for every clock: with all events without effect erased, the run is in the same place at every kept reading of the clock and at the end if and only if the readings erased before each of them fade by it in that sense; it is then in the same place at the end |
| BenchmarkIsolation.ErasedTickIsMissed | Rust/messaging/src/benchmark/service.rs:100-114 | an input where erasing shows: a reading ahead is erased, the next one lies between, and only the run that kept both loses its lease |
| BenchmarkIsolation.ErasedRollbackIsNotMissed | Rust/messaging/src/benchmark/service.rs:100-114 | an input where erasing a reading that steps back does not show, as the next one steps back too |
| BenchmarkIsolation.LimiterIsInert | Rust/messaging/src/benchmark/service.rs:262-268 | whatever the limiter holds, an event changes the rest of the state alike, and only whether a reply is sent can differ |
| BenchmarkIsolation.LimiterIsInertOverRuns | Rust/messaging/src/benchmark/service.rs:262-268 | over any run the limiter influences neither the state nor the history of applied controls |
| BenchmarkReplies.RespondIsValid | Rust/messaging/src/benchmark/service.rs:152-261 | every reply to a request passes the codec's validation |
| BenchmarkReplies.SampleIsValid | Rust/messaging/src/benchmark/service.rs:285-309 | every publication passes validation |
| BenchmarkReplies.RemainingIsBounded | Rust/messaging/src/benchmark/service.rs:246-252 | the reported remaining lease is at most 30000 ms in every well-formed state |
| BenchmarkReplies.EveryMessageIsValid | Rust/messaging/src/benchmark/service.rs:135-310 | every message sent in any run of a service with a well-formed identity passes validation |
| BenchmarkReplies.RunIsPaid | Rust/messaging/src/benchmark/service.rs:109-113 | over any run on a forward clock, capability and control replies are paid from tokens at hand and whole refill periods |
| BenchmarkReplies.ReplyRateIsBounded | Rust/messaging/src/benchmark/service.rs:262-268 | at most 10 + ceil(W/100000) capability and control replies in any window of W microseconds |
| BenchmarkLimiter.CreditIsHonoured | Rust/messaging/src/benchmark/service.rs:109-113 | whoever asks at most k <= 10 times, k refill periods after the service last looked at its clock, gets every reply, whatever else happens on a forward clock |
| BenchmarkLimiter.WithheldExactlyWhenSpent | Rust/messaging/src/benchmark/service.rs:262-268 | after any forward run a capability or control reply is withheld if and only if every token and every whole period has been spent on replies: since the start, or since some reading that found the bucket full |
| BenchmarkLimiter.FreshServiceOwesTen | Rust/messaging/src/benchmark/service.rs:60-82 | a fresh service answers the first ten limited requests of every forward run |
| BenchmarkLimiter.EchoesAreNotLimited | Rust/messaging/src/benchmark/service.rs:165-182 | an echo is always sent, without a token |
| BenchmarkLimiter.WithheldIsCounted | Rust/messaging/src/benchmark/service.rs:262-264 | the count of suppressed replies rises exactly with each reply withheld |
| BenchmarkCounts.CountersAreExact | Rust/messaging/src/benchmark/service.rs:115-122 | over any run that keeps its lease the counters rise by exactly the accepted requests, the refusals, the checksum failures and the failed sends, up to 2^32-1, and checksum failures are among the refusals |
| BenchmarkAnswers.RefusedExactlyBeyondTheLimits | Rust/messaging/src/benchmark/service.rs:203-206 | code 4 is given exactly to a configuration beyond the limits that a capabilities reply of the same state advertises, wherever no other code comes first |
| BenchmarkAnswers.PayloadWalksTheAlphabet | Rust/messaging/src/benchmark/service.rs:47-58 | symbol i of a payload is letter (seed + token + i) mod 62 of the written-out alphabet, and payloads exist exactly up to 512 |
| BenchmarkAnswers.EverythingIsDated | Rust/messaging/src/benchmark/service.rs:124-134 | every message sent at a reading carries its milliseconds modulo 2^32 |
| BenchmarkStreams.StreamsStartOnGrid | Rust/messaging/src/benchmark/service.rs:210-220 | a configure puts each stream at the start of a grid of its own period if and only if its first boundary fits 64 bits |
| BenchmarkStreams.StreamsAreIndependent | Rust/messaging/src/benchmark/service.rs:271-284 | while the lease lasts only a stream's own poll moves it; renewals, refusals, probes and the other stream do not |
| BenchmarkStreams.EventOnGrid | Rust/messaging/src/benchmark/service.rs:271-297 | one event of a run, with the boundary after it within 64 bits: the stream stays on its grid, and the sample sent carries the number of the newest elapsed slot |
| BenchmarkStreams.StreamsAreExact | Rust/messaging/src/benchmark/service.rs:271-284 | over any forward run of the service that keeps its lease and whose boundaries fit 64 bits, whatever requests, ticks and polls come between, published plus skipped slots of a stream are the slots elapsed at its last poll |
| ReferenceService.Service.constructor | Rust/tools/message-demo/python/benchmark_service.py:35-45 | a fresh host service, its token bucket aside |
| ReferenceService.Service.Tick | Rust/tools/message-demo/python/benchmark_service.py:75-82 | a clock that steps back is an error and changes nothing; otherwise time moves and an expired lease ends; the token bucket is left aside |
| ReferenceService.Service.End | Rust/tools/message-demo/python/benchmark_service.py:66-73 | the whole state after a run ends |
| ReferenceService.Service.Handle | Rust/tools/message-demo/python/benchmark_service.py:99-205 | the whole new state and the reply before the host's limiter, which is left aside |
| ReferenceService.Service.Control | Rust/tools/message-demo/python/benchmark_service.py:146-189 | the order of the control codes on the host, and their effects |
| ReferenceService.Service.Publications | Rust/tools/message-demo/python/benchmark_service.py:207-235 | both streams in order, with the whole new state |
| ReferenceService.Service.PublishRow | Rust/tools/message-demo/python/benchmark_service.py:210-234 | one stream: newest due slot, skipped slots, message |
| ReferenceService.Service.Sent | Rust/tools/message-demo/python/benchmark_service.py:59-64 | send outcomes on the host |
| ReferenceService.Service.Reject | Rust/tools/message-demo/python/benchmark_service.py:84-86 | rejections on the host |
| ReferenceSimulation.SimilarTick | Rust/tools/message-demo/python/benchmark_service.py:75-82 | ticks keep firmware and host in step |
| ReferenceSimulation.SameCode | Rust/tools/message-demo/python/benchmark_service.py:146-170 | both give the same code to every control in similar states, although one compares a triple and the other whole messages |
| ReferenceSimulation.SimilarAcquire | Rust/tools/message-demo/python/benchmark_service.py:171-186 | an applied configure keeps the two in step if and only if now + lease, now + status period and now + health period fit 64 bits of microseconds |
| ReferenceSimulation.SimilarRenew | Rust/tools/message-demo/python/benchmark_service.py:181-186 | an applied renew keeps the two in step if and only if the new expiry fits |
| ReferenceSimulation.SimilarPublish | Rust/tools/message-demo/python/benchmark_service.py:210-234 | a poll of one stream keeps the two in step if and only if the boundary after the slot it takes fits, and the samples then agree |
| ReferenceSimulation.ConfigureRepliesAgreeIfLeaseFits | Rust/tools/message-demo/python/benchmark_service.py:186-205 | the replies to an applied configure agree if and only if the lease fits, which is what the reported remaining lease depends on |
| ReferenceSimulation.SimilarRespond | Rust/tools/message-demo/python/benchmark_service.py:99-205 | a decoded request keeps the two in step if and only if the deadlines it sets fit, and is then answered alike |
| ReferenceSimulation.SimilarPublications | Rust/tools/message-demo/python/benchmark_service.py:207-235 | polling both streams keeps the two in step if and only if both next boundaries fit, and the samples then agree |
| ReferenceSimulation.StepAgreesIfItFits | Rust/tools/message-demo/python/benchmark_service.py:47-235 | any input keeps the two in step if and only if every deadline it sets fits 64 bits, and then both produce the same messages up to uptime |
| ReferenceSimulation.ImplementationsAgree | Rust/tools/message-demo/python/benchmark_service.py:34-235 | over every run of decoded requests, ticks, polls, failures and link loss on a nondecreasing clock whose deadlines fit, the firmware and the host agree on codes, epoch, owner, expiry, sequences, counters and messages |
| ReferenceSimulation.RunsPartAtTheFirstMisfit | Rust/tools/message-demo/python/benchmark_service.py:34-235 | after any such run the next input parts the two if and only if a deadline of it does not fit, so the condition on runs is exact |
| ReferenceSimulation.TheyPartAtTheEndOfTheClock | Rust/tools/message-demo/python/benchmark_service.py:186-205 | a concrete input: the published configure at the last microsecond of the clock leaves different states and gets different replies |
| ReferenceSimulation.FreshServicesAreSimilar | Rust/tools/message-demo/python/benchmark_service.py:35-45 | the two services start in step |
| Coordinator.UdpSocket.TrySend | Rust/src/servers/embassy_benchmark.rs:198-203 | a datagram is queued behind the others, or refused without change |
| Coordinator.Task.Await | Rust/src/servers/embassy_benchmark.rs:128-129 | the moment recorded is exactly epoch, activity, the three queues and the newest samples as they are; then the network drains as it likes |
| Coordinator.Task.Renew | Rust/src/servers/embassy_benchmark.rs:141-146 | a changed run closes all three sockets and so empties the queues; otherwise nothing changes |
| Coordinator.Task.MakeReady | Rust/src/servers/embassy_benchmark.rs:130-161 | the whole station after clock, link and binding, and whether the pass goes on, waits or stops for good |
| Coordinator.Task.HandleRequest | Rust/src/servers/embassy_benchmark.rs:182-205 | the whole station after a request: the service's answer, the queues brought to the run, the reply queued |
| Coordinator.Task.Answer | Rust/src/servers/embassy_benchmark.rs:193-204 | a probe reply is queued only if its run still lasts, any reply only if it encodes and fits, and the outcome is counted |
| Coordinator.Task.ReceiveOne | Rust/src/servers/embassy_benchmark.rs:162-210 | what each kind of datagram does to the station |
| Coordinator.Task.Discard | Rust/src/servers/embassy_benchmark.rs:226-234 | the unsent older sample is gone and counted as skipped |
| Coordinator.Task.DeliverSample | Rust/src/servers/embassy_benchmark.rs:235-246 | nothing is sent once the run of the sample has ended; otherwise the outcome and the loss are counted |
| Coordinator.Task.PublishOne | Rust/src/servers/embassy_benchmark.rs:217-246 | one stream: poll, discard what is unsent, queue the newest |
| Coordinator.Task.Turnaround | Rust/src/servers/embassy_benchmark.rs:128-257 | one pass of the loop: the whole station after it, and exactly the moments its awaits show |
| Coordinator.Task.Run | Rust/src/servers/embassy_benchmark.rs:128-257 | any number of passes do what the station does, show exactly its moments, at least one a pass until stopped, and every one of them is isolated and, for a service with a well-formed identity, holds valid messages only |
| CoordinatorSpec.SynchronizedIsConsistent | Rust/src/servers/embassy_benchmark.rs:141-146 | whatever became of the run, the queues belong to it afterwards, and if it changed they are empty |
| CoordinatorSpec.PreparedIsConsistent | Rust/src/servers/embassy_benchmark.rs:130-161 | a pass goes on only with all sockets open and the run the generation; losing the link, its address or a socket for good leaves no lease and nothing queued |
| CoordinatorSpec.ReplyIsConsistent | Rust/src/servers/embassy_benchmark.rs:193-204 | a reply is queued only behind queues of the current run, a probe reply only while it lasts |
| CoordinatorSpec.ServedIsConsistent | Rust/src/servers/embassy_benchmark.rs:182-205 | a request, even one that begins or ends a run, leaves no datagram of another run queued |
| CoordinatorSpec.DeliveredIsConsistent | Rust/src/servers/embassy_benchmark.rs:235-246 | a stream's queue afterwards is empty or exactly the sample |
| CoordinatorSpec.PublishedIsConsistent | Rust/src/servers/embassy_benchmark.rs:217-246 | publishing leaves at most the newest sample, and only of the current run |
| CoordinatorSpec.PassesAreIsolated | Rust/src/servers/embassy_benchmark.rs:128-257 | at every await of any number of passes, whatever clock, link, datagrams and failures bring: while a run is active all queued samples and probe replies carry its epoch, and each stream's queue is empty or its newest sample alone |
| CoordinatorDelivery.DeliverIsExact | Rust/src/servers/embassy_benchmark.rs:235-246 | in a run that lasts a sample is queued exactly if it encodes and the network takes it on an open, empty socket; otherwise the failed send and the loss are counted, and nothing else changes either way |
| CoordinatorDelivery.ReplyIsExact | Rust/src/servers/embassy_benchmark.rs:193-204 | a reply is appended exactly if it encodes and the network takes it on an open socket with at most one reply waiting |
| CoordinatorDelivery.RefusalsAreCounted | Rust/src/servers/embassy_benchmark.rs:162-210 | a datagram that cannot be received, is for another address, or does not decode is counted while a lease is held and changes nothing else |
| CoordinatorDelivery.TakenInOrder | Rust/src/servers/embassy_benchmark.rs:128-129 | the network takes datagrams in the order in which they were queued |
| CoordinatorDelivery.NetworkIsNoted | Rust/src/servers/embassy_benchmark.rs:132-140 | the station goes by the network it saw last, so a new address ends one run and not the next |
| CoordinatorDelivery.DueSamplesAreDelivered | Rust/src/servers/embassy_benchmark.rs:128-257 | a pass on an unchanged link with the clock within the lease keeps the run, counts no send error, and its last await shows for each stream the newest due sample alone, numbered by the slots passed |
| CoordinatorDelivery.RepliesAreDelivered | Rust/src/servers/embassy_benchmark.rs:162-257 | a reply to any request is shown at the last await behind what waits for the current run, and the streams show what is due in the run the request has led to |
| CoordinatorDelivery.QuietPassesKeepTheRun | Rust/src/servers/embassy_benchmark.rs:128-257 | over any number of such passes the run goes on and every await shows it |
| CoordinatorRuns.PassesAreARun | Rust/src/servers/embassy_benchmark.rs:128-257 | any series of passes takes the service through a run of such events, so every law of whole runs holds under the loop |
| CoordinatorMessages.EverythingQueuedIsValid | Rust/src/servers/embassy_benchmark.rs:128-257 | at every await of any number of passes every datagram queued on the three sockets passes validation, whatever arrives and fails |
| PublicationSchedule.Schedule.New | Rust/messaging/src/schedule.rs:14-20 | a schedule exists exactly for a nonzero period, and its first slot is one period after the start |
| PublicationSchedule.Schedule.TakeDue | Rust/messaging/src/schedule.rs:25-36 | the whole new schedule and the slot taken |
| PublicationSchedule.StartsOnGrid | Rust/messaging/src/schedule.rs:14-20 | a new schedule stands at the start of its grid if and only if its first boundary fits 64 bits |
| PublicationSchedule.TakingLands | Rust/messaging/src/schedule.rs:25-36 | the sequence is the newest due slot's index mod 2^32, the skipped slots are those between, and the deadline lands on the next boundary if and only if that boundary fits 64 bits |
| PublicationSchedule.LastBoundaryIsMissed | Rust/messaging/src/schedule.rs:32-34 | a concrete schedule off its grid: its next boundary lies past the end of the clock |
| PublicationSchedule.PollingIsExact | Rust/messaging/src/schedule.rs:25-36 | however a schedule is polled, published plus skipped slots equal elapsed slots and the deadline stays start + (index+1) periods |
| PublicationSchedule.SkippingEqualsWalking | Rust/messaging/src/schedule.rs:25-36 | skipping ahead equals visiting the due slots one by one |
| PublicationSchedule.BothSchedulesAgree | Rust/messaging/src/benchmark/service.rs:278-284 | the benchmark streams and the ordinary schedule take the same sequence, skip count and next deadline at every reading of the clock |
| CommandPolicy.CommandPolicy.Assess | Rust/messaging/src/service.rs:30-73 | the decision on a request and the whole new credit |
| CommandPolicy.GoodCommandsAlwaysPass | Rust/messaging/src/service.rs:37-45 | a valid targeted request, and nothing else, is accepted, whatever the credit and at no cost |
| CommandPolicy.DecisionsAreExact | Rust/messaging/src/service.rs:37-71 | what each decision means: error 1 exactly for a kind that is no request and 2 for a malformed request or no kind, errors only to correlatable messages for this device that are no answers, and the rejection that validation gave |
| CommandPolicy.CreditIsHonoured | Rust/messaging/src/service.rs:53-61 | as long as the credit of a moment lasts, every fault from then on gets its error |
| CommandPolicy.FreshPolicyOwesTen | Rust/messaging/src/service.rs:24-29 | a fresh policy answers the first ten faults of every forward series |
| CommandPolicy.WithheldExactlyWhenSpent | Rust/messaging/src/service.rs:53-61 | after any forward series of calls the error a fault deserves is withheld if and only if the whole credit has been spent on errors: since the start, or since some call that found it full |
| CommandPolicy.OnlyFaultsAreCharged | Rust/messaging/src/service.rs:37-67 | over any series of calls on any clock: leaving out good commands, answers, uncorrelatable messages and those for others changes neither the credit nor the errors sent |
| CommandPolicy.ErrorRateIsBounded | Rust/messaging/src/service.rs:53-61 | at most 10 + floor(W/100) error decisions in any window of W milliseconds on a forward clock |
| Crc32c.CheckValue | Rust/messaging/src/framing.rs:102-120 | the published check value of the checksum as defined here |
| Crc32c.ShiftIsInjective | Rust/messaging/src/framing.rs:5-30 | each step of the checksum register is invertible |
| Crc32c.BurstChangesChecksum | Rust/messaging/src/framing.rs:28-30 | bodies of any length that differ only within four consecutive bytes have different checksums |
| Framing.Seal | Rust/messaging/src/framing.rs:34-50 | writes exactly the trailer behind the body and leaves the rest of the buffer alone; Size exactly when body or buffer limits are exceeded, and then nothing changes |
| Framing.OpenDatagram | Rust/messaging/src/framing.rs:53-83 | the loop over the trailer computes the specified result, size judged before integrity |
| Framing.TrailerIsCanonical | Rust/messaging/src/framing.rs:71-79 | eight digits denote a value if and only if they are its uppercase trailer |
| Framing.HighIsShifted | Rust/messaging/src/framing.rs:44-48 | the digits printed are the shifts by 28, 24, ... 0 of the value |
| Framing.OpenAcceptsExactlySealed | Rust/messaging/src/framing.rs:53-83 | in either mode a datagram is accepted if and only if it is the sealed form of the returned body of at most 1016 bytes |
| Framing.ErrorsAreExact | Rust/messaging/src/framing.rs:53-83 | size errors are exactly the datagrams beyond 1016 or 1024 bytes, everything else refused is a checksum error, and only where there is a trailer |
| Framing.DigitsAreCapitals | Rust/messaging/src/framing.rs:44-48 | digits are the sixteen capitals of the published alphabet, and nothing else is read as one |
| Framing.PublishedFrame | Rust/messaging/src/framing.rs:120-123 | the published frame opens, and its trailer in small letters does not |
| Framing.DamagedTrailerIsRejected | Rust/messaging/src/framing.rs:71-83 | every other trailer is a checksum error |
| Framing.DamagedBodyIsRejected | Rust/messaging/src/framing.rs:80-83 | every change confined to four consecutive body bytes is a checksum error |
| FlashLayout.DecodeIsCanonical | Rust/src/lib.rs:99-119 | an upload header is accepted if and only if it is the canonical form of a length in 0x200..0x40000 and a 32-byte digest |
| FlashLayout.HeaderFields | Rust/src/lib.rs:99-119 | where the fields of an accepted header stand, byte by byte: magic FWUP, version 1, zeros, length from the low byte, digest |
| UpdateDevices.Flash.Write | Rust/src/firmware_update.rs:100-102 | flash programming: whole aligned words in ascending order up to the first reported error, no other byte touched, faithful only on erased words |
| FirmwareUpdate.ReadExact | Rust/src/firmware_update.rs:160-172 | consumes exactly the bytes asked for, in however many reads, or fails |
| FirmwareUpdate.ReceiveChunk | Rust/src/firmware_update.rs:89-98 | one chunk of the stream, padded with 0xff, with the first one checked for the image magic |
| FirmwareUpdate.ReceiveImage | Rust/src/firmware_update.rs:83-113 | the received bytes are those hashed and, on faithful flash, those staged, padded with 0xff to whole words; the marker stays blank in every state passed |
| FirmwareUpdate.ReadBack | Rust/src/firmware_update.rs:122-135 | what is hashed the second time is what the flash holds |
| FirmwareUpdate.Activate | Rust/src/firmware_update.rs:141-152 | in every state with a nonblank marker the image region is untouched and, on faithful flash, the swap information is in place |
| FirmwareUpdate.Verify | Rust/src/firmware_update.rs:115-152 | activation happens only after both digests match, and on faithful flash the second always does when the first did |
| FirmwareUpdate.Receive | Rust/src/firmware_update.rs:52-158 | crash safety: from the completed erase on, every state a reset can meet has a blank marker unless the upload is complete, acceptable and matched by the staged bytes; words are aligned, ascending, inside the slot and so programmed once; nothing outside the secondary slot changes; exactly 44 + image_length bytes are consumed; the rest of the slot is erased; on devices that do not fail the outcome is the first failing check in order; the last line sent is the outcome, and a successful transcript is ERASING, READY, a report every 16 KiB and at the end, and the reboot |
| FirmwareUpdate.PaddingComesLast | Rust/src/firmware_update.rs:99-107 | padding every chunk separately pads the image only at its end |
| FirmwareUpdate.TrailerAsksForATestSwap | Rust/src/lib.rs:123-154 | after an accepted upload on faithful flash: swap type 2 in the 128th byte from the end of the slot, the trailer magic in its last 16, everything between erased, and the image at 0xA0000 with erased bytes behind it |
| FirmwareUpdate.SameTrailerIsAnUnconfirmedTrial | Rust/src/firmware_update.rs:34-49 | the same trailer at the end of the primary slot is exactly what confirming takes for an unconfirmed trial |
| FirmwareUpdate.ConfirmationStandsInTheTrailer | Rust/src/firmware_update.rs:34-49 | a trial is told by the last 16 bytes of the primary slot and the flag byte 64 before its end, which confirming sets to 1 |
| FirmwareUpdate.ConfirmRunningTrial | Rust/src/firmware_update.rs:34-49 | programs exactly one word and only for an unconfirmed trial, also over a word that is not blank; afterwards the trial is confirmed, so a second call does nothing |
| CsvRecord.CheckRecord | Rust/messaging/src/csv.rs:10-38 | the loop computes acceptance by the four-state automaton |
| CsvRecord.ReadAccepts | Rust/messaging/src/csv.rs:19-36 | the automaton accepts what can be read as fields, from every state |
| CsvRecord.FieldsInvertRender | Rust/messaging/src/csv.rs:10-38 | reading a record and writing a list of well-formed fields are inverse to each other, for records of any length |
| CsvRecord.AcceptsExactlyRecords | Rust/messaging/src/csv.rs:10-38 | accepted if and only if the bytes are a comma-joined list of well-formed bare or quoted fields followed by CRLF |
| CsvRecord.RecordIsUnambiguous | Rust/messaging/src/csv.rs:10-38 | the field list of a record is unique |
| Cells.IntegerCellIsCanonical | Rust/messaging/src/cells.rs:26-34 | an integer cell reads as a value if and only if it is the text printed for it |
| BenchmarkCsv.CsvOutput.Append | Rust/messaging/src/benchmark.rs:325-332 | appends all of the bytes or reports Size and changes nothing |
| BenchmarkCsv.CsvOutput.Field | Rust/messaging/src/benchmark.rs:333-344 | a field is preceded by a comma except the first; Size exactly when it does not fit |
| BenchmarkCsv.CsvOutput.Fields | Rust/messaging/src/generated/benchmark_model.rs:580-589 | writing cells one by one writes their comma-joined line |
| BenchmarkCsv.CsvWrite | Rust/messaging/src/generated/benchmark_model.rs:578-668 | the record in the buffer, or the first error: Size of the common columns, then a missing body, then Size of the whole |
| BenchmarkCsv.HeaderRoundTrip | Rust/messaging/src/generated/benchmark_model.rs:674-684 | the common columns read back, an empty payload as none |
| BenchmarkCsv.LimitsRoundTrip | Rust/messaging/src/generated/benchmark_model.rs:725-741 | limits read back |
| BenchmarkCsv.StatusRoundTrip | Rust/messaging/src/generated/benchmark_model.rs:757-766 | status reads back, temperature included |
| BenchmarkCsv.HealthRoundTrip | Rust/messaging/src/generated/benchmark_model.rs:767-778 | health reads back |
| BenchmarkDatagram.BodyRoundTrip | Rust/messaging/src/generated/benchmark_model.rs:685-780 | the body columns of a valid message restore it, including a present but empty payload for kinds 5, 15, 21 and 22 |
| BenchmarkDatagram.SplitInvertsLine | Rust/messaging/src/benchmark.rs:206-230 | splitting the record of plain cells gives the cells back |
| BenchmarkDatagram.RecordRoundTrip | Rust/messaging/src/benchmark.rs:311-349 | every valid envelope fits with at most 818 bytes, passes the record check, and splits and reads back to itself |
| BenchmarkDatagram.EncodeInto | Rust/messaging/src/benchmark.rs:253-286 | validation, record and trailer in the caller's buffer |
| BenchmarkDatagram.DatagramRoundTrip | Rust/messaging/src/benchmark.rs:173-286 | decoding undoes encoding in both framing modes up to the sign of zero, and with 818 bytes and the trailer only invalid messages fail |
| BenchmarkDatagram.DecodedIsValid | Rust/messaging/src/benchmark.rs:244-250 | whatever decodes is valid and free of negative zero |
| BenchmarkDatagram.OnlyTheSignOfZeroIsLost | Rust/messaging/src/benchmark.rs:244-250 | normalizing takes the sign from a negative zero and changes nothing else |
| BenchmarkDatagram.UndecodableIsRefused | Rust/messaging/src/benchmark.rs:206-230 | a body that is no record, has a field that is no text, or fewer than 10 or more than 20 columns is a decoding error |
| BenchmarkDatagram.UnknownKindIsInvalid | Rust/messaging/src/generated/benchmark_model.rs:685-780 | a readable record of no known kind is invalid |
| BenchmarkColumns.ColumnsFollowTheProfile | Rust/protocol/benchmark/profile.json:11-19 | every record has the common columns and then those of its kind in the order of the profile, each cell the text of the field the column is named after |
| BenchmarkColumns.ReadingIsCanonical | Rust/messaging/src/generated/benchmark_model.rs:674-780 | whatever is read has exactly the columns of its kind, and every cell but a temperature is the one text that writing the message would produce |
| Utf8.WellFormedIsEncoded | Rust/messaging/src/benchmark.rs:220-225 | text is well formed if and only if it is some sequence of characters, surrogates excluded, encoded one by one |
| Float32.TemperatureRange | Rust/messaging/src/validation.rs:105-110 | a bit pattern is accepted as a temperature if and only if it is finite and its value lies between -100 and 200 degrees |
| MessagingContract.ValidationIsTheContract | Rust/messaging/src/validation.rs:28-127 | validation accepts exactly the messages of the documented tables: which common fields each role has, which body each kind has, and what the fields may hold; another version is told apart |
| MessagingContract.CorrelationIsTheContract | Rust/messaging/src/validation.rs:17-27 | an error reply needs version, device, session and a request number, and nothing else |
| BenchmarkContract.ScriptAgrees | Rust/protocol/benchmark/check_contract.py:38-126 | the firmware accepts exactly what the independent contract script accepts or refuses only for its configuration, and that is refused exactly when the firmware would give code 4 |
| Wire.VarintRoundTrip | Rust/messaging/src/generated/protobuf.rs:1667-1675 | base 128 varints read back, whatever follows |
| Wire.ValueRoundTrip | Rust/messaging/src/generated/protobuf.rs:1277-1349 | every scalar kind reads back, negative numbers through ten bytes |
| Wire.ValueSize | Rust/messaging/src/generated/protobuf.rs:1765-1800 | the computed size of a value is its length and within the limit of its kind |
| Wire.FixedBytesAreLittleEndian | Rust/messaging/src/generated/protobuf.rs:431-437 | the lowest byte of a float comes first |
| Wire.VarintGroups | Rust/messaging/src/generated/protobuf.rs:1667-1675 | byte k of a varint carries the k-th group of seven bits, with the high bit on all but the last |
| Wire.VarintsEndWithinTen | Rust/messaging/src/generated/protobuf.rs:1267-1272 | a varint can be read if and only if one of the first ten bytes ends it |
| Protobuf.StepExtends | Rust/messaging/src/generated/protobuf.rs:1272-1470 | decoding one field does not depend on what follows it |
| Protobuf.DecodeConcatenation | Rust/messaging/src/generated/protobuf.rs:1272-1470 | whole fields followed by anything decode like the fields alone and then the rest |
| Protobuf.EncodingIsBounded | Rust/messaging/src/generated/protobuf.rs:1473-1666 | at every nesting level an encoding is no longer than the generated MAX_SIZE |
| Protobuf.MessageRoundTrip | Rust/messaging/src/generated/protobuf.rs:1265-1880 | for every table, decoding the encoding of a message of that table gives it back |
| Protobuf.UnknownFieldIsIgnorable | Rust/messaging/src/generated/protobuf.rs:1463-1465 | any field with an unknown number, or a known number with another wire type among 0, 1, 2 and 5, is passed over whatever its payload |
| Protobuf.IgnoredFieldChangesNothing | Rust/messaging/src/generated/protobuf.rs:1272-1470 | such a field inserted at any field boundary leaves the result unchanged, errors included |
| Protobuf.NestedRecordMeaning | Rust/messaging/src/generated/protobuf.rs:1350-1462 | a nested record matters only through what it decodes to, so the same holds inside nested messages |
| Protobuf.DecodedIsValid | Rust/messaging/src/generated/protobuf.rs:1272-1470 | whatever decodes is a message of its table at every level: known fields, in range, within capacity, well-formed text |
| Protobuf.DecodedIsReencoded | Rust/messaging/src/generated/protobuf.rs:1265-1880 | whatever bytes decode, encoding the result canonically and decoding again gives the same message within the size limit |
| Protobuf.ForeignFieldIsRefused | Rust/messaging/src/generated/protobuf.rs:1272-1290 | field number zero, groups and the unused wire types are refused at every field boundary |
| Protobuf.TruncatedFieldIsRefused | Rust/messaging/src/generated/protobuf.rs:1272-1470 | a length-delimited field cut short is refused |
| Protobuf.RepeatedMembersMerge | Rust/messaging/src/generated/protobuf.rs:1350-1462 | two records of one member mean what one record with both contents means |
| Protobuf.AnotherMemberReplaces | Rust/messaging/src/generated/protobuf.rs:1350-1462 | a record of another member replaces the one that was set, starting from nothing |
| Protobuf.LastValueCounts | Rust/messaging/src/generated/protobuf.rs:1277-1349 | of several values of one field the last one counts |
| ProtobufCoder.DecodeMessage | Rust/messaging/src/generated/protobuf.rs:1266-1470 | the decoding loop with its wire-type guards and nested messages |
| ProtobufCoder.ComputeSize | Rust/messaging/src/generated/protobuf.rs:1765-1880 | the counted size is the true encoded length and within MAX_SIZE, here and in nested messages |
| ProtobufCoder.Encoder.Encoded | Rust/messaging/src/generated/protobuf.rs:1667-1764 | fails exactly when the encoding does not fit the vector, and otherwise appends exactly it |
| MessagingProtobuf.EnvelopeTable | Rust/messaging/src/generated/protobuf.rs:1473-1666 | the field numbers are distinct at every level and MAX_SIZE of the envelope is 153 |
| MessagingProtobuf.CommonNumbers | Rust/protocol/messaging.proto:61-71 | every common field stands under its published number |
| MessagingProtobuf.BodyNumbers | Rust/protocol/messaging.proto:41-80 | every body stands under its published number, and so do its fields |
| MessagingProtobuf.KindsFollowTheSchema | Rust/protocol/messaging.proto:41-80 | every field has the type of the schema and the capacity of the profile, and no other field is known |
| MessagingProtobuf.FromPbUndoesToPb | Rust/messaging/src/generated/model.rs:294-375 | from_pb undoes to_pb for every message with at most one body |
| MessagingProtobuf.ValidEnvelopeRoundTrip | Rust/messaging/src/generated/model.rs:294-375 | every valid message converts, encodes in at most 153 bytes, decodes and converts back to itself |
| MessagingDatagram.EncodeInto | Rust/messaging/src/lib.rs:153-180 | the bytes of a valid message in the caller's buffer, nothing else changed |
| MessagingDatagram.MessageSurvivesTheWire | Rust/messaging/src/lib.rs:140-180 | decoding undoes encoding in both framing modes up to the sign of zero, and with 153 bytes and the trailer only invalid messages fail |
| MessagingDatagram.DecodedIsValid | Rust/messaging/src/lib.rs:140-152 | whatever decodes is a valid message without a negative zero |
| MessagingDatagram.OnlyTheSignOfZeroIsLost | Rust/messaging/src/lib.rs:146-152 | normalizing takes the sign from a negative zero and changes nothing else |
| MessagingDatagram.UndecodableIsRefused | Rust/messaging/src/lib.rs:88-140 | an intact body is a decoding error exactly if it is empty or no sequence of whole fields; otherwise only version and validation can fail |
| MessagingDatagram.NewerFieldsChangeNothing | Rust/messaging/src/lib.rs:126-132 | fields a newer peer adds at any boundary change no decoded message |
| GoldenRequest.RequestMatchesThePublishedBytes | Rust/protocol/fixtures/golden_request.json:1-7 | the published example request encodes to the published bytes and back |
| GoldenCapabilities.RequestMatchesThePublishedRecord | Rust/protocol/benchmark/fixtures.json:39-40 | the published capabilities request is written as the published record, which decodes to it |
| GoldenConfigure.RecordFollowsTheColumnOrder | Rust/protocol/benchmark/profile.json:11-13 | a configure request is written in the published order of columns |
| RxChain.Assemble | Src/ethernetif.c:610-644 | any sequence of received buffers: the chain in memory is exactly those buffers, and the tot_len of each is the sum of the lengths from there to the end, within 16 bits |
| RxChain.TotalsAreSuffixSums | Src/ethernetif.c:634-640 | the list that every sequence of links builds has suffix sums for totals; RxChain.Assemble ties it to memory |
| RxChain.Packet.Link | Src/ethernetif.c:610-644 | linking a fresh buffer keeps the list acyclic, ending at the end pointer, and adds its length to every total |
| RxChain.AddToTotals | Src/ethernetif.c:634-640 | the walk along the links updates every total once |
| RxChain.Pool.Allocate | Src/ethernetif.c:590-608 | no buffer exactly when all twelve are outstanding, and only then the status becomes an error |
| RxChain.Pool.Free | Src/ethernetif.c:376-386 | a returned buffer clears the error |
| RxChain.Pool.MayRead | Src/ethernetif.c:285-297 | reading is withheld only while all twelve buffers are outstanding |

## Left out

- JSON encoding and decoding: the work is inside the JSON library.
- The Protocol Buffers form of the benchmark schema: other tables for the same coder.
- The CSV form of the ordinary schema: the same record grammar and cells with other columns.
- csv-core: replaced by the field reader of the checked grammar; tolerances of the library that the record check already excludes, and its handling of a byte order mark, are not modelled.
- micropb: its varint, skip, string and length-delimited primitives follow the Protocol Buffers encoding rules (varints of at most ten bytes truncated to 32 bits, groups refused); its error kinds are one failure, as the callers map them all to one error.
- ryu and the float parser: a pair of functions of which only plain short text and reading back are required, for temperatures that validation accepts; Cells.LawfulLibrariesExist shows that such a pair exists.
- ProtobufCoder.DecodeMessage: reads slices of what is left instead of a shared position; the length check after a nested message is the slice boundary.
- BenchmarkCsv.CsvOutput.Fields: one loop over the cells stands for the generated sequence of field calls.
- FirmwareUpdate.ReceiveImage: the chunk loop of one source function is split into methods; the hash is an arbitrary function of all bytes given to it.
- UpdateDevices.Flash.Write: damage is confined to the word being programmed, and a word is programmed in one step; a failed erase leaves anything in the slot, and nothing is claimed before an erase has completed.
- SHA-256, image signatures and the bootloader: not part of this model.
- ReferenceService.Service.constructor: the host's token bucket is not part of the state.
- ReferenceService.Service.Tick: the floating-point refill of that bucket is not modelled.
- ReferenceService.Service.Handle: the host's floating-point reply limiter and its count of suppressed replies are not modelled, so replies are compared before both limiters.
- ReferenceSimulation.ImplementationsAgree: uptime is not compared, because the host counts from its own start; requests are those that decode, as the host's codec rejects the others before its service sees them.
- BenchmarkService.Service: counters, lease and schedules are values in the service's fields rather than objects of their own.
- Coordinator.Task.Run: code between two awaits is one step; clock readings, the link, received datagrams and the outcomes of binding, encoding and sending are given by the turn; the datagram bytes are represented by their message, and the start-up self check is left out.
- RxChain.Pool.Free: interrupts are not modelled, and cache maintenance and the driver's descriptor handling are not part of this model.
- Generated accessors, logging, LEDs, DHCP, SSH, Ethernet and SPI drivers: hardware and library plumbing.
