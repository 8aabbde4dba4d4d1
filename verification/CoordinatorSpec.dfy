/**
 * The firmware coordinator as a state machine. A station is one service and its three sockets; a turn is everything
 * that one pass of the loop learns from outside: readings of the clock, the link, a datagram, and what binding,
 * encoding and sending come to. Each theorem holds for every series of turns.
 */
module CoordinatorSpec {
  import opened Machine
  import opened Messages
  import opened Benchmark
  import opened BenchmarkSpec
  import opened BenchmarkRuns

  /** The state of the link, as far as the loop can tell two of them apart. */
  type Network = Option<nat>

  datatype Socket = Socket(open: bool, queue: seq<Envelope>)

  const CLOSED := Socket(false, [])
  const COMMAND_CAPACITY: nat := 2
  const STREAM_CAPACITY: nat := 1

  /** A stream's socket, and the newest sample ever taken for it. */
  datatype Stream = Stream(socket: Socket, newest: Option<Envelope>)

  type Streams = s: seq<Stream> | |s| == 2 witness [Stream(CLOSED, None), Stream(CLOSED, None)]

  datatype Station = Station(
    service: State, generation: (u32, bool), network: Network, command: Socket, streams: Streams)

  /** How many datagrams of each queue the network takes while other tasks run. */
  datatype Drain = Drain(command: nat, status: nat, health: nat)

  datatype Received =
    | Nothing
    | Broken
    | Misaddressed
    | Foreign
    | Unreadable(error: CodecError)
    | Request(request: Envelope, peer: Peer)

  /** One stream's part of a turn. */
  datatype Round = Round(bind: bool, polled: u64, rebind: bool, queued: u64, encoded: bool, accepted: bool)

  type Rounds = s: seq<Round> | |s| == 2
    witness [Round(true, 0, true, 0, true, true), Round(true, 0, true, 0, true, true)]

  datatype Turn = Turn(
    first: Drain, start: u64, linkUp: bool, network: Network, bindCommand: bool, bindStatus: bool, bindHealth: bool,
    received: Received, handled: u64, rebind: bool, answered: u64, encoded: bool, accepted: bool,
    rounds: Rounds, last: Drain)

  // ---------------------------------------------------------------------
  // Sockets.

  function Bound(s: Socket, ok: bool): Socket {
    s.(open := s.open || ok)
  }

  /** A socket that is open and has room takes the datagram behind the others, unless the network refuses it. */
  function Sends(s: Socket, capacity: nat, accepted: bool): bool {
    accepted && s.open && |s.queue| < capacity
  }

  function Queued(s: Socket, m: Envelope, sent: bool): Socket {
    if sent then s.(queue := s.queue + [m]) else s
  }

  function Taken(s: Socket, n: nat): Socket {
    s.(queue := s.queue[if n < |s.queue| then n else |s.queue|..])
  }

  function Drained(c: Station, d: Drain): Station {
    c.(command := Taken(c.command, d.command),
       streams := [c.streams[0].(socket := Taken(c.streams[0].socket, d.status)),
                   c.streams[1].(socket := Taken(c.streams[1].socket, d.health))])
  }

  function CloseAll(c: Station): Station {
    c.(command := CLOSED, streams := [c.streams[0].(socket := CLOSED), c.streams[1].(socket := CLOSED)])
  }

  // ---------------------------------------------------------------------
  // One pass of the loop.

  function Current(s: State): (u32, bool) {
    (s.epoch, s.lease.Some?)
  }

  /** Discards the queues whenever the run has changed since they were filled. */
  function Synchronize(c: Station): Station {
    if c.generation == Current(c.service) then c else CloseAll(c).(generation := Current(c.service))
  }

  function Halt(c: Station): Station {
    CloseAll(c).(service := End(c.service))
  }

  datatype Phase = Ready | Waiting | Stopped

  function AllOpen(c: Station): bool {
    c.command.open && c.streams[0].socket.open && c.streams[1].socket.open
  }

  function BindAll(c: Station, turn: Turn): Station {
    c.(command := Bound(c.command, turn.bindCommand),
       streams := [c.streams[0].(socket := Bound(c.streams[0].socket, turn.bindStatus)),
                   c.streams[1].(socket := Bound(c.streams[1].socket, turn.bindHealth))])
  }

  /** The clock and the link: losing the link or its address ends the run. */
  function Observe(c: Station, turn: Turn): Station {
    var ticked := c.(service := Tick(c.service, turn.start));
    if turn.linkUp && turn.network.Some? && turn.network == c.network then ticked
    else Halt(ticked).(network := turn.network)
  }

  function Prepare(c: Station, turn: Turn): (Station, Phase) {
    var ready := Synchronize(Observe(c, turn));
    if !(turn.linkUp && turn.network.Some?) then (ready, Waiting)
    else if AllOpen(BindAll(ready, turn)) then (BindAll(ready, turn), Ready)
    else (Halt(ready), Stopped)
  }

  /** A reply is queued behind the current run, a probe reply only while that run lasts. */
  function Reply(c: Station, reply: Envelope, turn: Turn): Station {
    var ticked := c.(service := Tick(c.service, turn.answered));
    if reply.kind == Some(15) && !(reply.runEpoch == Some(ticked.service.epoch) && ticked.service.lease.Some?)
    then ticked
    else
      var sent := turn.encoded && Sends(c.command, COMMAND_CAPACITY, turn.accepted);
      ticked.(service := ticked.service.(counters := ticked.service.counters.Sent(0, sent)),
              command := Queued(c.command, reply, sent))
  }

  /** Handles a request; false when the rest of the pass is abandoned. */
  function Serve(c: Station, request: Envelope, peer: Peer, turn: Turn): (Station, bool)
    requires Wf(c.service)
  {
    var (service, reply) := Handle(c.service, request, peer, turn.handled);
    var ready := Synchronize(c.(service := service));
    if !ready.command.open && !turn.rebind then (ready.(service := End(ready.service)), false)
    else
      var bound := ready.(command := Bound(ready.command, true));
      match reply
      case None => (bound, true)
      case Some(m) => (Reply(bound, m, turn), true)
  }

  function Receive(c: Station, turn: Turn): (Station, bool)
    requires Wf(c.service)
  {
    match turn.received
    case Nothing | Foreign => (c, true)
    case Broken | Misaddressed => (c.(service := BenchmarkSpec.Reject(c.service, false)), true)
    case Unreadable(error) => (c.(service := BenchmarkSpec.Reject(c.service, error == CodecError.Crc)), true)
    case Request(request, peer) => Serve(c, request, peer, turn)
  }

  function WithSocket(c: Station, index: nat, socket: Socket): Station
    requires index < 2
  {
    c.(streams := c.streams[index := c.streams[index].(socket := socket)])
  }

  /** Queues the newest sample on an empty queue, unless its run has ended meanwhile. */
  function Deliver(c: Station, index: nat, sample: Envelope, round: Round): Station
    requires index < 2
  {
    var service := Tick(c.service, round.queued);
    if service.lease.None? || sample.runEpoch != Some(service.epoch) then c.(service := service)
    else
      var socket := c.streams[index].socket;
      var sent := round.encoded && Sends(socket, STREAM_CAPACITY, round.accepted);
      var counters := service.counters.Sent(index + 1, sent);
      WithSocket(c.(service := service.(counters := if sent then counters else counters.Skip(1))),
                 index, Queued(socket, sample, sent))
  }

  /** Discards an unsent older sample, and counts it as skipped. */
  function Emptied(c: Station, index: nat, rebind: bool): Station
    requires index < 2
  {
    WithSocket(c.(service := c.service.(counters := c.service.counters.Skip(1))), index, Bound(CLOSED, rebind))
  }

  /** Polls one stream and replaces whatever is still unsent; false when its socket cannot be bound. */
  function PublishNewest(c: Station, index: nat, round: Round): (Station, bool)
    requires Wf(c.service) && index < 2
  {
    var socket := Bound(c.streams[index].socket, round.bind);
    if !socket.open then (c.(service := End(c.service)), false)
    else
      var (service, sample) := BenchmarkSpec.Poll(c.service, index, round.polled);
      match sample
      case None => (WithSocket(c, index, socket).(service := service), true)
      case Some(m) =>
        var noted := c.(service := service, streams := c.streams[index := Stream(socket, Some(m))]);
        if socket.queue == [] then (Deliver(noted, index, m, round), true)
        else
          var emptied := Emptied(noted, index, round.rebind);
          if round.rebind then (Deliver(emptied, index, m, round), true)
          else (emptied.(service := End(emptied.service)), false)
  }

  function PublishBoth(c: Station, rounds: Rounds): Station
    requires Wf(c.service)
  {
    var (first, bound) := PublishNewest(c, 0, rounds[0]);
    if !bound then first
    else
      PublishWf(c, 0, rounds[0]);
      PublishNewest(first, 1, rounds[1]).0
  }

  /** What another task could observe at an await point. */
  datatype Moment = Moment(
    epoch: u32, active: bool, command: seq<Envelope>, streams: seq<seq<Envelope>>, newest: seq<Option<Envelope>>)

  function MomentOf(c: Station): Moment {
    Moment(c.service.epoch, c.service.lease.Some?, c.command.queue,
           [c.streams[0].socket.queue, c.streams[1].socket.queue], [c.streams[0].newest, c.streams[1].newest])
  }

  datatype Passed = Passed(after: Station, moments: seq<Moment>, stopped: bool)

  /** One pass, from its first await to its last, with what was seen at its awaits. */
  function Pass(c: Station, turn: Turn): Passed
    requires Wf(c.service)
  {
    var (ready, phase) := Prepare(Drained(c, turn.first), turn);
    if phase != Ready then Passed(Drained(ready, turn.last), [MomentOf(c), MomentOf(ready)], phase == Stopped)
    else
      PrepareWf(Drained(c, turn.first), turn);
      var (served, proceed) := Receive(ready, turn);
      if !proceed then Passed(served, [MomentOf(c)], false)
      else
        ReceiveWf(ready, turn);
        var done := Synchronize(PublishBoth(Synchronize(served), turn.rounds));
        Passed(Drained(done, turn.last), [MomentOf(c), MomentOf(done)], false)
  }

  /** Any number of passes, until the loop stops for good. */
  function Passes(c: Station, turns: seq<Turn>): Passed
    requires Wf(c.service)
    decreases |turns|
  {
    if turns == [] then Passed(c, [], false)
    else
      var pass := Pass(c, turns[0]);
      PassWf(c, turns[0]);
      if pass.stopped then pass
      else
        var rest := Passes(pass.after, turns[1..]);
        Passed(rest.after, pass.moments + rest.moments, rest.stopped)
  }

  // ---------------------------------------------------------------------
  // The service stays well formed.

  lemma CountedWf(s: State, counters: Counters)
    requires Wf(s)
    ensures Wf(s.(counters := counters)) && Wf(End(s))
    ensures Wf(BenchmarkSpec.Reject(s, false)) && Wf(BenchmarkSpec.Reject(s, true))
  {
  }

  lemma PrepareWf(c: Station, turn: Turn)
    requires Wf(c.service)
    ensures Wf(Prepare(c, turn).0.service)
  {
    TickWf(c.service, turn.start);
    CountedWf(Tick(c.service, turn.start), ZERO);
    CountedWf(End(Tick(c.service, turn.start)), ZERO);
    hide Tick, Wf, End;
  }

  lemma ReplyWf(c: Station, reply: Envelope, turn: Turn)
    requires Wf(c.service)
    ensures Wf(Reply(c, reply, turn).service)
  {
    TickWf(c.service, turn.answered);
    CountedWf(Tick(c.service, turn.answered), Reply(c, reply, turn).service.counters);
    hide Tick, Wf;
  }

  lemma SynchronizeKeepsService(c: Station)
    ensures Synchronize(c).service == c.service
  {
  }

  lemma ServeWf(c: Station, request: Envelope, peer: Peer, turn: Turn)
    requires Wf(c.service)
    ensures Wf(Serve(c, request, peer, turn).0.service)
  {
    HandleWf(c.service, request, peer, turn.handled);
    var (service, reply) := Handle(c.service, request, peer, turn.handled);
    CountedWf(service, ZERO);
    var ready := Synchronize(c.(service := service));
    SynchronizeKeepsService(c.(service := service));
    hide Handle, Wf, End, Reply, Synchronize;
    if reply.Some? {
      ReplyWf(ready.(command := Bound(ready.command, true)), reply.value, turn);
    }
  }

  lemma ReceiveWf(c: Station, turn: Turn)
    requires Wf(c.service)
    ensures Wf(Receive(c, turn).0.service)
  {
    CountedWf(c.service, ZERO);
    hide Wf, End, BenchmarkSpec.Reject, Serve;
    match turn.received
    case Request(request, peer) => ServeWf(c, request, peer, turn);
    case _ =>
  }

  lemma DeliverWf(c: Station, index: nat, sample: Envelope, round: Round)
    requires Wf(c.service) && index < 2
    ensures Wf(Deliver(c, index, sample, round).service)
  {
    TickWf(c.service, round.queued);
    CountedWf(Tick(c.service, round.queued), Deliver(c, index, sample, round).service.counters);
    hide Tick, Wf;
  }

  lemma PublishWf(c: Station, index: nat, round: Round)
    requires Wf(c.service) && index < 2
    ensures Wf(PublishNewest(c, index, round).0.service)
  {
    CountedWf(c.service, ZERO);
    PollWf(c.service, index, round.polled);
    var (service, sample) := BenchmarkSpec.Poll(c.service, index, round.polled);
    CountedWf(service, service.counters.Skip(1));
    CountedWf(service.(counters := service.counters.Skip(1)), ZERO);
    if sample.Some? {
      var socket := Bound(c.streams[index].socket, round.bind);
      var noted := c.(service := service, streams := c.streams[index := Stream(socket, sample)]);
      DeliverWf(noted, index, sample.value, round);
      DeliverWf(Emptied(noted, index, round.rebind), index, sample.value, round);
    }
    hide BenchmarkSpec.Poll, Wf, End, Deliver;
  }

  lemma PassWf(c: Station, turn: Turn)
    requires Wf(c.service)
    ensures Wf(Pass(c, turn).after.service)
  {
    PrepareWf(Drained(c, turn.first), turn);
    var (ready, phase) := Prepare(Drained(c, turn.first), turn);
    if phase == Ready {
      ReceiveWf(ready, turn);
      var served := Synchronize(Receive(ready, turn).0);
      PublishWf(served, 0, turn.rounds[0]);
      PublishWf(PublishNewest(served, 0, turn.rounds[0]).0, 1, turn.rounds[1]);
    }
    hide Prepare, Receive, PublishNewest, Wf, End;
  }

  // ---------------------------------------------------------------------
  // What is queued belongs to the run.

  predicate OfRun(queue: seq<Envelope>, epoch: u32) {
    forall m :: m in queue ==> m.runEpoch == Some(epoch)
  }

  predicate ProbesOfRun(queue: seq<Envelope>, epoch: u32) {
    forall m :: m in queue && m.kind == Some(15) ==> m.runEpoch == Some(epoch)
  }

  predicate OnlyNewest(queue: seq<Envelope>, newest: Option<Envelope>) {
    queue == [] || (newest.Some? && queue == [newest.value])
  }

  /** No datagram of an earlier run waits while a run is active, and no stale sample waits at all. */
  predicate Isolated(a: Moment) {
    |a.streams| == |a.newest| == 2 &&
    (a.active ==> OfRun(a.streams[0], a.epoch) && OfRun(a.streams[1], a.epoch) && ProbesOfRun(a.command, a.epoch)) &&
    OnlyNewest(a.streams[0], a.newest[0]) && OnlyNewest(a.streams[1], a.newest[1])
  }

  predicate StreamOfRun(stream: Stream, epoch: u32) {
    OfRun(stream.socket.queue, epoch) && OnlyNewest(stream.socket.queue, stream.newest)
  }

  /** Everything queued belongs to the generation. */
  predicate OfGeneration(c: Station) {
    StreamOfRun(c.streams[0], c.generation.0) && StreamOfRun(c.streams[1], c.generation.0) &&
    ProbesOfRun(c.command.queue, c.generation.0)
  }

  /** What holds between the steps of a pass: and an active run is the generation. */
  predicate Consistent(c: Station) {
    Wf(c.service) && OfGeneration(c) && (c.service.lease.Some? ==> c.generation == Current(c.service))
  }

  lemma ConsistentIsIsolated(c: Station)
    requires Consistent(c)
    ensures Isolated(MomentOf(c))
  {
    hide OfRun, ProbesOfRun, OnlyNewest, Wf;
  }

  lemma TakenStream(stream: Stream, n: nat, epoch: u32)
    requires StreamOfRun(stream, epoch)
    ensures StreamOfRun(stream.(socket := Taken(stream.socket, n)), epoch)
  {
  }

  lemma TakenCommand(command: Socket, n: nat, epoch: u32)
    requires ProbesOfRun(command.queue, epoch)
    ensures ProbesOfRun(Taken(command, n).queue, epoch)
  {
  }

  lemma DrainedIsConsistent(c: Station, d: Drain)
    requires Consistent(c)
    ensures Consistent(Drained(c, d))
  {
    TakenStream(c.streams[0], d.status, c.generation.0);
    TakenStream(c.streams[1], d.health, c.generation.0);
    TakenCommand(c.command, d.command, c.generation.0);
    hide StreamOfRun, ProbesOfRun, Taken, Wf;
  }

  lemma ClosedIsOfGeneration(c: Station)
    ensures OfGeneration(CloseAll(c))
  {
  }

  /** Whatever has become of the run, synchronizing makes the run the generation. */
  lemma SynchronizedIsConsistent(c: Station)
    requires Wf(c.service) && OfGeneration(c)
    ensures Consistent(Synchronize(c)) && Synchronize(c).generation == Current(Synchronize(c).service)
    ensures c.generation != Current(c.service) ==>
              Synchronize(c).command == CLOSED && Synchronize(c).streams[0].socket == CLOSED &&
              Synchronize(c).streams[1].socket == CLOSED
  {
    ClosedIsOfGeneration(c.(generation := Current(c.service)));
    hide Wf, StreamOfRun, ProbesOfRun;
  }

  /** The clock can end a run but not begin one. */
  lemma TickEndsOnly(s: State, now: u64)
    requires Wf(s)
    ensures Wf(Tick(s, now)) && (Tick(s, now).lease.Some? ==> s.lease.Some? && Tick(s, now).epoch == s.epoch)
  {
    TickWf(s, now);
  }

  predicate AllClosed(c: Station) {
    c.command == CLOSED && c.streams[0].socket == CLOSED && c.streams[1].socket == CLOSED
  }

  lemma ObservedIsOfGeneration(c: Station, turn: Turn)
    requires Wf(c.service) && OfGeneration(c)
    ensures Wf(Observe(c, turn).service) && OfGeneration(Observe(c, turn))
    ensures !(turn.linkUp && turn.network.Some?) ==> AllClosed(Observe(c, turn)) && Observe(c, turn).service.lease.None?
  {
    var ticked := c.(service := Tick(c.service, turn.start));
    TickWf(c.service, turn.start);
    CountedWf(Tick(c.service, turn.start), ZERO);
    EndLeavesNoLease(Tick(c.service, turn.start));
    ClosedIsOfGeneration(ticked);
    hide Tick, Wf, End, StreamOfRun, ProbesOfRun;
  }

  lemma BoundIsConsistent(c: Station, turn: Turn)
    requires Consistent(c)
    ensures Consistent(BindAll(c, turn)) && BindAll(c, turn).service == c.service
    ensures BindAll(c, turn).generation == c.generation
  {
    hide Wf, OfRun, ProbesOfRun, OnlyNewest;
  }

  lemma HaltedIsConsistent(c: Station)
    requires Consistent(c)
    ensures Consistent(Halt(c)) && AllClosed(Halt(c)) && Halt(c).service.lease.None?
  {
    ClosedIsOfGeneration(c);
    CountedWf(c.service, ZERO);
    EndLeavesNoLease(c.service);
    hide Wf, End, StreamOfRun, ProbesOfRun;
  }

  lemma ClosedStaysClosed(c: Station)
    requires AllClosed(c)
    ensures AllClosed(Synchronize(c))
  {
  }

  lemma PreparedIsConsistent(c: Station, turn: Turn)
    requires Consistent(c)
    ensures var (ready, phase) := Prepare(c, turn);
            Consistent(ready) && (phase == Ready ==> AllOpen(ready) && ready.generation == Current(ready.service)) &&
            (phase != Ready ==> AllClosed(ready) && ready.service.lease.None?)
  {
    var seen := Observe(c, turn);
    ObservedIsOfGeneration(c, turn);
    SynchronizedIsConsistent(seen);
    SynchronizeKeepsService(seen);
    if AllClosed(seen) {
      ClosedStaysClosed(seen);
    }
    BoundIsConsistent(Synchronize(seen), turn);
    HaltedIsConsistent(Synchronize(seen));
    hide Observe, Synchronize, BindAll, Halt, Consistent, AllClosed, AllOpen, Wf, OfGeneration;
  }

  lemma EndLeavesNoLease(s: State)
    ensures End(s).lease.None?
  {
  }

  /** A probe reply is queued only for the run that lasts; other replies need no run. */
  lemma ReplyIsConsistent(c: Station, reply: Envelope, turn: Turn)
    requires Consistent(c) && c.generation == Current(c.service)
    ensures Consistent(Reply(c, reply, turn))
  {
    ReplyWf(c, reply, turn);
    TickEndsOnly(c.service, turn.answered);
    hide Tick, Wf, StreamOfRun;
  }

  lemma ReboundIsConsistent(c: Station)
    requires Consistent(c)
    ensures Consistent(c.(command := Bound(c.command, true)))
    ensures Consistent(c.(service := End(c.service)))
  {
    CountedWf(c.service, ZERO);
    EndLeavesNoLease(c.service);
    hide Wf, End, StreamOfRun, ProbesOfRun;
  }

  lemma ServedIsConsistent(c: Station, request: Envelope, peer: Peer, turn: Turn)
    requires Consistent(c)
    ensures Consistent(Serve(c, request, peer, turn).0)
  {
    HandleWf(c.service, request, peer, turn.handled);
    var (service, reply) := Handle(c.service, request, peer, turn.handled);
    var ready := Synchronize(c.(service := service));
    SynchronizedIsConsistent(c.(service := service));
    ReboundIsConsistent(ready);
    hide Handle, End, Reply, Synchronize, Consistent, Wf;
    if reply.Some? {
      ReplyIsConsistent(ready.(command := Bound(ready.command, true)), reply.value, turn);
    }
  }

  lemma ReceivedIsConsistent(c: Station, turn: Turn)
    requires Consistent(c)
    ensures Consistent(Receive(c, turn).0)
  {
    CountedWf(c.service, ZERO);
    if turn.received.Request? {
      ServedIsConsistent(c, turn.received.request, turn.received.peer, turn);
    }
    hide Serve, Wf, OfGeneration;
  }

  lemma PollFacts(s: State, index: nat, now: u64)
    requires Wf(s)
    ensures var (after, sample) := BenchmarkSpec.Poll(s, index, now);
            Wf(after) && (after.lease.Some? ==> s.lease.Some? && after.epoch == s.epoch) &&
            (sample.Some? ==> after.lease.Some? && sample.value.runEpoch == Some(after.epoch))
  {
    PollWf(s, index, now);
    TickEndsOnly(s, now);
    hide Tick, TakeSlot, Wf;
  }

  /** A sample is queued alone, and only while its run lasts. */
  lemma DeliveredIsConsistent(c: Station, index: nat, sample: Envelope, round: Round)
    requires Consistent(c) && index < 2 && c.streams[index] == Stream(c.streams[index].socket, Some(sample))
    requires c.streams[index].socket.queue == []
    ensures Consistent(Deliver(c, index, sample, round))
    ensures Deliver(c, index, sample, round).streams[index].socket.queue in {[], [sample]}
  {
    DeliverWf(c, index, sample, round);
    TickEndsOnly(c.service, round.queued);
    hide Tick, Wf, ProbesOfRun;
  }

  lemma PublishedIsConsistent(c: Station, index: nat, round: Round)
    requires Consistent(c) && index < 2
    ensures Consistent(PublishNewest(c, index, round).0)
  {
    var (service, sample) := BenchmarkSpec.Poll(c.service, index, round.polled);
    PollFacts(c.service, index, round.polled);
    ReboundIsConsistent(c);
    var socket := Bound(c.streams[index].socket, round.bind);
    PolledIsConsistent(c, index, socket, service);
    if sample.Some? {
      var noted := c.(service := service, streams := c.streams[index := Stream(socket, sample)]);
      var lost := service.(counters := service.counters.Skip(1));
      var emptied := Emptied(noted, index, round.rebind);
      assert emptied.streams == c.streams[index := Stream(Bound(CLOSED, round.rebind), sample)];
      CountedWf(service, service.counters.Skip(1));
      EmptiedIsConsistent(c, index, Stream(socket, sample), service);
      EmptiedIsConsistent(c, index, Stream(Bound(CLOSED, round.rebind), sample), lost);
      ReboundIsConsistent(emptied);
      hide BenchmarkSpec.Poll, Deliver, Consistent, Wf, End;
      if socket.queue == [] {
        DeliveredIsConsistent(noted, index, sample.value, round);
      } else if round.rebind {
        DeliveredIsConsistent(emptied, index, sample.value, round);
      }
    }
    hide BenchmarkSpec.Poll, Deliver, Consistent, Wf, End;
  }

  lemma PolledIsConsistent(c: Station, index: nat, socket: Socket, service: State)
    requires Consistent(c) && index < 2 && Wf(service) && socket.queue == c.streams[index].socket.queue
    requires service.lease.Some? ==> c.service.lease.Some? && service.epoch == c.service.epoch
    ensures Consistent(WithSocket(c, index, socket).(service := service))
  {
    hide Wf, OfRun, ProbesOfRun, OnlyNewest;
  }

  lemma EmptiedIsConsistent(c: Station, index: nat, stream: Stream, service: State)
    requires Consistent(c) && index < 2 && Wf(service)
    requires service.lease.Some? ==> c.service.lease.Some? && service.epoch == c.service.epoch
    ensures stream.socket.queue == [] ==> Consistent(c.(service := service, streams := c.streams[index := stream]))
  {
    hide Wf, ProbesOfRun;
  }

  /** One pass keeps the station consistent, and all that others could see at its awaits was isolated. */
  lemma PassIsIsolated(c: Station, turn: Turn)
    requires Consistent(c)
    ensures var pass := Pass(c, turn);
            Consistent(pass.after) && pass.moments != [] && pass.moments[0] == MomentOf(c) &&
            forall k :: 0 <= k < |pass.moments| ==> Isolated(pass.moments[k])
  {
    var drained := Drained(c, turn.first);
    var (ready, phase) := Prepare(drained, turn);
    DrainedIsConsistent(c, turn.first);
    PreparedIsConsistent(drained, turn);
    ConsistentIsIsolated(c);
    ConsistentIsWf(c);
    ConsistentIsWf(drained);
    ConsistentIsWf(ready);
    if phase != Ready {
      hide Drained, Prepare, Consistent, Isolated, MomentOf, Wf;
      ConsistentIsIsolated(ready);
      DrainedIsConsistent(ready, turn.last);
    } else {
      ReceivedIsConsistent(ready, turn);
      var (served, proceed) := Receive(ready, turn);
      ConsistentIsWf(served);
      if proceed {
        PublishedBothIsConsistent(served, turn.rounds);
        var done := Synchronize(PublishBoth(Synchronize(served), turn.rounds));
        hide Drained, Prepare, Receive, PublishBoth, Synchronize, Consistent, Isolated, MomentOf, Wf;
        ConsistentIsIsolated(done);
        DrainedIsConsistent(done, turn.last);
      }
      hide Drained, Prepare, Receive, PublishBoth, Synchronize, Consistent, Isolated, MomentOf, Wf;
    }
  }

  lemma ConsistentIsWf(c: Station)
    requires Consistent(c)
    ensures Wf(c.service) && OfGeneration(c)
  {
  }

  lemma PublishedBothIsConsistent(c: Station, rounds: Rounds)
    requires Consistent(c)
    ensures Wf(Synchronize(c).service) && Wf(PublishBoth(Synchronize(c), rounds).service)
    ensures Consistent(Synchronize(PublishBoth(Synchronize(c), rounds)))
  {
    var ready := Synchronize(c);
    SynchronizedIsConsistent(c);
    PublishedIsConsistent(ready, 0, rounds[0]);
    var (first, bound) := PublishNewest(ready, 0, rounds[0]);
    if bound {
      PublishedIsConsistent(first, 1, rounds[1]);
    }
    var both := PublishBoth(ready, rounds);
    hide PublishNewest, Synchronize, Wf, OfGeneration;
    SynchronizedIsConsistent(both);
  }

  /**
   * At every await point of every run of the coordinator: while a run is active, every queued sample and every queued
   * probe reply carries its epoch, and each stream queue holds at most its newest sample.
   */
  lemma {:induction false} PassesAreIsolated(c: Station, turns: seq<Turn>)
    requires Consistent(c)
    ensures Wf(c.service) && Consistent(Passes(c, turns).after)
    ensures forall k :: 0 <= k < |Passes(c, turns).moments| ==> Isolated(Passes(c, turns).moments[k])
    ensures !Passes(c, turns).stopped ==> |Passes(c, turns).moments| >= |turns|
    decreases |turns|
  {
    hide Pass, Consistent, Isolated, MomentOf, Wf;
    ConsistentIsWf(c);
    if turns != [] {
      PassIsIsolated(c, turns[0]);
      ConsistentIsWf(Pass(c, turns[0]).after);
      PassesAreIsolated(Pass(c, turns[0]).after, turns[1..]);
    }
  }
}
