/** Whatever waits on a socket of the coordinator is a valid message of the service. */
module CoordinatorMessages {
  import opened Messages
  import opened Benchmark
  import opened BenchmarkSpec
  import opened BenchmarkRuns
  import opened BenchmarkReplies
  import opened CoordinatorSpec
  import opened CoordinatorRuns

  /** Every datagram of a queue passes the validation of the wire format in use. */
  predicate Sound(queue: seq<Envelope>, format: Format, crc: CrcMode) {
    forall m :: m in queue ==> Validate(m, format, crc).Ok?
  }

  predicate AllSound(a: Moment, format: Format, crc: CrcMode) {
    |a.streams| == 2 &&
    Sound(a.command, format, crc) && Sound(a.streams[0], format, crc) && Sound(a.streams[1], format, crc)
  }

  predicate ServiceOf(s: State, format: Format, crc: CrcMode) {
    Wf(s) && Identified(s) && s.format == format && s.crc == crc
  }

  /** A station whose service has a well-formed identity, and whose queues hold valid messages only. */
  predicate Proper(c: Station, format: Format, crc: CrcMode) {
    ServiceOf(c.service, format, crc) && AllSound(MomentOf(c), format, crc)
  }

  lemma {:induction false} RunKeepsService(s: State, es: seq<Event>, format: Format, crc: CrcMode)
    requires ServiceOf(s, format, crc)
    ensures Wf(s) && ServiceOf(Run(s, es), format, crc)
    decreases |es|
  {
    if es != [] {
      StepIsValid(s, es[0]);
      hide Next, Identified, Wf;
      RunKeepsService(Next(s, es[0]), es[1..], format, crc);
    }
  }

  lemma MessageIsValid(s: State, e: Event, format: Format, crc: CrcMode)
    requires ServiceOf(s, format, crc)
    ensures Wf(s) && (Step(s, e).1.Some? ==> Validate(Step(s, e).1.value, format, crc).Ok?)
  {
    hide Step, Validate, Wf, Identified;
    StepIsValid(s, e);
  }

  lemma QueuedIsSound(s: Socket, m: Envelope, sent: bool, format: Format, crc: CrcMode)
    requires Sound(s.queue, format, crc) && Validate(m, format, crc).Ok?
    ensures Sound(Queued(s, m, sent).queue, format, crc)
  {
    hide Validate;
  }

  lemma TakenIsSound(s: Socket, n: nat, format: Format, crc: CrcMode)
    requires Sound(s.queue, format, crc)
    ensures Sound(Taken(s, n).queue, format, crc)
  {
    hide Validate;
  }

  lemma DrainedIsProper(c: Station, d: Drain, format: Format, crc: CrcMode)
    requires Proper(c, format, crc)
    ensures Proper(Drained(c, d), format, crc)
  {
    TakenIsSound(c.command, d.command, format, crc);
    TakenIsSound(c.streams[0].socket, d.status, format, crc);
    TakenIsSound(c.streams[1].socket, d.health, format, crc);
    hide ServiceOf, Sound, Taken;
  }

  lemma SynchronizedIsProper(c: Station, format: Format, crc: CrcMode)
    requires Proper(c, format, crc)
    ensures Proper(Synchronize(c), format, crc)
  {
    hide ServiceOf, Validate;
  }

  lemma HaltQueuesNothing(c: Station, format: Format, crc: CrcMode)
    ensures AllSound(MomentOf(Halt(c)), format, crc)
  {
    hide Validate, End;
  }

  lemma ReadyQueuesNothing(c: Station, turn: Turn, format: Format, crc: CrcMode)
    requires AllSound(MomentOf(c), format, crc)
    ensures AllSound(MomentOf(Synchronize(c)), format, crc) && AllSound(MomentOf(BindAll(c, turn)), format, crc)
  {
    assert Sound([], format, crc);
    hide Sound;
  }

  /** No step before the receive step queues anything. */
  lemma PrepareQueuesNothing(c: Station, turn: Turn, format: Format, crc: CrcMode)
    requires AllSound(MomentOf(c), format, crc)
    ensures AllSound(MomentOf(Prepare(c, turn).0), format, crc)
  {
    var ticked := c.(service := Tick(c.service, turn.start));
    assert AllSound(MomentOf(ticked), format, crc);
    HaltQueuesNothing(ticked, format, crc);
    var seen := Observe(c, turn);
    assert AllSound(MomentOf(seen), format, crc) by { hide Sound, Tick, CloseAll, End; }
    hide Tick, AllSound, MomentOf, Observe, Halt, BindAll, Synchronize, AllOpen;
    ReadyQueuesNothing(seen, turn, format, crc);
    ReadyQueuesNothing(Synchronize(seen), turn, format, crc);
    HaltQueuesNothing(Synchronize(seen), format, crc);
  }

  lemma PreparedIsProper(c: Station, turn: Turn, format: Format, crc: CrcMode)
    requires Proper(c, format, crc)
    ensures Proper(Prepare(c, turn).0, format, crc)
  {
    PrepareIsARun(c, turn);
    RunKeepsService(c.service, PrepareEvents(c, turn), format, crc);
    PrepareQueuesNothing(c, turn, format, crc);
    hide ServiceOf, AllSound, Prepare, PrepareEvents, Run, Wf, MomentOf;
  }

  lemma ReplyIsProper(c: Station, reply: Envelope, turn: Turn, format: Format, crc: CrcMode)
    requires Proper(c, format, crc) && Validate(reply, format, crc).Ok?
    ensures Proper(Reply(c, reply, turn), format, crc)
  {
    ReplyIsARun(c, reply, turn);
    RunKeepsService(c.service, ReplyEvents(c, reply, turn), format, crc);
    var sent := turn.encoded && Sends(c.command, COMMAND_CAPACITY, turn.accepted);
    QueuedIsSound(c.command, reply, sent, format, crc);
    hide ServiceOf, Sound, Queued, ReplyEvents, Run, Wf, Tick, Validate, Sends;
  }

  lemma ServedIsProper(c: Station, request: Envelope, peer: Peer, turn: Turn, format: Format, crc: CrcMode)
    requires Proper(c, format, crc)
    ensures Wf(c.service) && Proper(Serve(c, request, peer, turn).0, format, crc)
  {
    var e := Received(request, peer, turn.handled);
    MessageIsValid(c.service, e, format, crc);
    var (service, reply) := Handle(c.service, request, peer, turn.handled);
    assert Step(c.service, e) == (service, reply) && Next(c.service, e) == service;
    RunOne(c.service, e);
    RunKeepsService(c.service, [e], format, crc);
    ServeIsARun(c, request, peer, turn);
    RunKeepsService(c.service, ServeEvents(c, request, peer, turn), format, crc);
    hide Step, Next, Handle, ServiceOf, Run, ServeEvents, Wf, Synchronize, Validate, End, Reply, Sound;
    var handled := c.(service := service);
    assert MomentOf(handled).command == MomentOf(c).command && MomentOf(handled).streams == MomentOf(c).streams;
    SynchronizedIsProper(handled, format, crc);
    var ready := Synchronize(handled);
    if reply.Some? {
      ReplyIsProper(ready.(command := Bound(ready.command, true)), reply.value, turn, format, crc);
    }
  }

  lemma ReceivedIsProper(c: Station, turn: Turn, format: Format, crc: CrcMode)
    requires Proper(c, format, crc)
    ensures Wf(c.service) && Proper(Receive(c, turn).0, format, crc)
  {
    ReceiveIsARun(c, turn);
    RunKeepsService(c.service, ReceiveEvents(c, turn), format, crc);
    hide ServiceOf, Sound, Run, ReceiveEvents, Wf, Serve, BenchmarkSpec.Reject;
    match turn.received
    case Request(request, peer) => ServedIsProper(c, request, peer, turn, format, crc);
    case _ =>
  }

  /** A stream queue afterwards holds what it held, and possibly the sample. */
  lemma DeliverQueuesTheSample(c: Station, index: nat, sample: Envelope, round: Round, format: Format, crc: CrcMode)
    requires AllSound(MomentOf(c), format, crc) && Validate(sample, format, crc).Ok? && index < 2
    ensures AllSound(MomentOf(Deliver(c, index, sample, round)), format, crc)
  {
    var socket := c.streams[index].socket;
    var sent := round.encoded && Sends(socket, STREAM_CAPACITY, round.accepted);
    QueuedIsSound(socket, sample, sent, format, crc);
    hide Sound, Queued, Tick, Validate, Sends;
  }

  /** Emptying a stream and noting its newest sample queue nothing. */
  lemma NotedIsSound(c: Station, index: nat, stream: Stream, format: Format, crc: CrcMode)
    requires AllSound(MomentOf(c), format, crc) && index < 2
    requires stream.socket.queue in {c.streams[index].socket.queue, []}
    ensures AllSound(MomentOf(c.(streams := c.streams[index := stream])), format, crc)
  {
    assert Sound([], format, crc);
    hide Sound;
  }

  lemma ServiceQueuesNothing(c: Station, service: State, format: Format, crc: CrcMode)
    requires AllSound(MomentOf(c), format, crc)
    ensures AllSound(MomentOf(c.(service := service)), format, crc)
  {
    hide Sound;
  }

  lemma PublishQueuesTheSample(c: Station, index: nat, round: Round, format: Format, crc: CrcMode)
    requires Wf(c.service) && AllSound(MomentOf(c), format, crc) && index < 2
    requires var sample := BenchmarkSpec.Poll(c.service, index, round.polled).1;
             sample.Some? ==> Validate(sample.value, format, crc).Ok?
    ensures AllSound(MomentOf(PublishNewest(c, index, round).0), format, crc)
  {
    var (service, sample) := BenchmarkSpec.Poll(c.service, index, round.polled);
    var socket := Bound(c.streams[index].socket, round.bind);
    var stream := c.streams[index];
    hide Validate, BenchmarkSpec.Poll, End, Deliver, AllSound, MomentOf, Wf;
    ServiceQueuesNothing(c, End(c.service), format, crc);
    ServiceQueuesNothing(c, service, format, crc);
    var polled := c.(service := service);
    if sample.None? {
      NotedIsSound(polled, index, stream.(socket := socket), format, crc);
    } else {
      NotedIsSound(polled, index, Stream(socket, sample), format, crc);
      var noted := polled.(streams := c.streams[index := Stream(socket, sample)]);
      DeliverQueuesTheSample(noted, index, sample.value, round, format, crc);
      var counted := service.(counters := service.counters.Skip(1));
      ServiceQueuesNothing(noted, counted, format, crc);
      NotedIsSound(noted.(service := counted), index, Stream(Bound(CLOSED, round.rebind), sample), format, crc);
      var emptied := Emptied(noted, index, round.rebind);
      DeliverQueuesTheSample(emptied, index, sample.value, round, format, crc);
      ServiceQueuesNothing(emptied, End(emptied.service), format, crc);
    }
  }

  lemma PublishedIsProper(c: Station, index: nat, round: Round, format: Format, crc: CrcMode)
    requires Proper(c, format, crc) && index < 2
    ensures Wf(c.service) && Proper(PublishNewest(c, index, round).0, format, crc)
  {
    var e := Polled(index, round.polled);
    MessageIsValid(c.service, e, format, crc);
    assert Step(c.service, e) == BenchmarkSpec.Poll(c.service, index, round.polled);
    PublishIsARun(c, index, round);
    RunKeepsService(c.service, PublishEvents(c, index, round), format, crc);
    hide Step, ServiceOf, Run, PublishEvents, Wf, Validate, BenchmarkSpec.Poll, AllSound, MomentOf, PublishNewest;
    PublishQueuesTheSample(c, index, round, format, crc);
  }

  lemma ProperIsWf(c: Station, format: Format, crc: CrcMode)
    requires Proper(c, format, crc)
    ensures Wf(c.service) && AllSound(MomentOf(c), format, crc)
  {
  }

  lemma PublishedBothIsProper(c: Station, rounds: Rounds, format: Format, crc: CrcMode)
    requires Proper(c, format, crc)
    ensures Wf(c.service) && Proper(PublishBoth(c, rounds), format, crc)
  {
    hide Proper, Wf, PublishNewest;
    ProperIsWf(c, format, crc);
    PublishedIsProper(c, 0, rounds[0], format, crc);
    var (first, bound) := PublishNewest(c, 0, rounds[0]);
    PublishedIsProper(first, 1, rounds[1], format, crc);
  }

  lemma PassIsProper(c: Station, turn: Turn, format: Format, crc: CrcMode)
    requires Proper(c, format, crc)
    ensures Wf(c.service)
    ensures var pass := Pass(c, turn);
            Proper(pass.after, format, crc) &&
            forall k :: 0 <= k < |pass.moments| ==> AllSound(pass.moments[k], format, crc)
  {
    hide Proper, Wf, Prepare, Receive, PublishBoth, Synchronize, Drained, MomentOf, AllSound;
    ProperIsWf(c, format, crc);
    var drained := Drained(c, turn.first);
    DrainedIsProper(c, turn.first, format, crc);
    PreparedIsProper(drained, turn, format, crc);
    ProperIsWf(drained, format, crc);
    var (ready, phase) := Prepare(drained, turn);
    ProperIsWf(ready, format, crc);
    if phase != Ready {
      DrainedIsProper(ready, turn.last, format, crc);
    } else {
      ReceivedIsProper(ready, turn, format, crc);
      var (served, proceed) := Receive(ready, turn);
      if proceed {
        SynchronizedIsProper(served, format, crc);
        PublishedBothIsProper(Synchronize(served), turn.rounds, format, crc);
        SynchronizedIsProper(PublishBoth(Synchronize(served), turn.rounds), format, crc);
        var done := Synchronize(PublishBoth(Synchronize(served), turn.rounds));
        ProperIsWf(done, format, crc);
        DrainedIsProper(done, turn.last, format, crc);
      }
    }
  }

  /** At every await of any number of passes, every datagram queued on any of the three sockets passes validation. */
  lemma {:induction false} EverythingQueuedIsValid(c: Station, turns: seq<Turn>, format: Format, crc: CrcMode)
    requires Proper(c, format, crc)
    ensures Wf(c.service) && Proper(Passes(c, turns).after, format, crc)
    ensures forall k :: 0 <= k < |Passes(c, turns).moments| ==> AllSound(Passes(c, turns).moments[k], format, crc)
    decreases |turns|
  {
    hide Pass, Proper, AllSound, Wf;
    ProperIsWf(c, format, crc);
    if turns != [] {
      PassIsProper(c, turns[0], format, crc);
      ProperIsWf(Pass(c, turns[0]).after, format, crc);
      EverythingQueuedIsValid(Pass(c, turns[0]).after, turns[1..], format, crc);
    }
  }
}
