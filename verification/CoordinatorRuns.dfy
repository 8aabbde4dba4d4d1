/**
 * A run of the coordinator is a run of its service: every pass takes the service through events, so whatever holds
 * of every run of the service holds on the board.
 */
module CoordinatorRuns {
  import opened Machine
  import opened Messages
  import opened Benchmark
  import opened BenchmarkSpec
  import opened BenchmarkRuns
  import opened CoordinatorSpec

  // ---------------------------------------------------------------------
  // The events of a pass.

  function PrepareEvents(c: Station, turn: Turn): seq<Event> {
    [Ticked(turn.start)] +
    (if turn.linkUp && turn.network.Some? && turn.network == c.network then [] else [LinkLost]) +
    (if Prepare(c, turn).1 == Stopped then [LinkLost] else [])
  }

  function ReplyEvents(c: Station, reply: Envelope, turn: Turn): seq<Event> {
    var ticked := Tick(c.service, turn.answered);
    [Ticked(turn.answered)] +
    (if reply.kind == Some(15) && !(reply.runEpoch == Some(ticked.epoch) && ticked.lease.Some?) then []
     else [Delivered(0, turn.encoded && Sends(c.command, COMMAND_CAPACITY, turn.accepted))])
  }

  function ServeEvents(c: Station, request: Envelope, peer: Peer, turn: Turn): seq<Event>
    requires Wf(c.service)
  {
    var (service, reply) := Handle(c.service, request, peer, turn.handled);
    var ready := Synchronize(c.(service := service));
    [Received(request, peer, turn.handled)] +
    (if !ready.command.open && !turn.rebind then [LinkLost]
     else match reply
       case None => []
       case Some(m) => ReplyEvents(ready.(command := Bound(ready.command, true)), m, turn))
  }

  function ReceiveEvents(c: Station, turn: Turn): seq<Event>
    requires Wf(c.service)
  {
    match turn.received
    case Nothing | Foreign => []
    case Broken | Misaddressed => [Event.Undecodable(false)]
    case Unreadable(error) => [Event.Undecodable(error == CodecError.Crc)]
    case Request(request, peer) => ServeEvents(c, request, peer, turn)
  }

  function DeliverEvents(c: Station, index: nat, sample: Envelope, round: Round): seq<Event>
    requires index < 2
  {
    var ticked := Tick(c.service, round.queued);
    var sent := round.encoded && Sends(c.streams[index].socket, STREAM_CAPACITY, round.accepted);
    [Ticked(round.queued)] +
    (if ticked.lease.None? || sample.runEpoch != Some(ticked.epoch) then []
     else [Delivered(index + 1, sent)] + (if sent then [] else [Dropped(1)]))
  }

  function PublishEvents(c: Station, index: nat, round: Round): seq<Event>
    requires Wf(c.service) && index < 2
  {
    var socket := Bound(c.streams[index].socket, round.bind);
    if !socket.open then [LinkLost]
    else
      var (service, sample) := BenchmarkSpec.Poll(c.service, index, round.polled);
      [Polled(index, round.polled)] +
      match sample
      case None => []
      case Some(m) =>
        var noted := c.(service := service, streams := c.streams[index := Stream(socket, Some(m))]);
        if socket.queue == [] then DeliverEvents(noted, index, m, round)
        else [Dropped(1)] + (if round.rebind then DeliverEvents(Emptied(noted, index, round.rebind), index, m, round)
                             else [LinkLost])
  }

  function BothEvents(c: Station, rounds: Rounds): seq<Event>
    requires Wf(c.service)
  {
    PublishWf(c, 0, rounds[0]);
    var (second, bound) := PublishNewest(c, 0, rounds[0]);
    PublishEvents(c, 0, rounds[0]) + if bound then PublishEvents(second, 1, rounds[1]) else []
  }

  function PassEvents(c: Station, turn: Turn): seq<Event>
    requires Wf(c.service)
  {
    var drained := Drained(c, turn.first);
    var (ready, phase) := Prepare(drained, turn);
    PrepareWf(drained, turn);
    PrepareEvents(drained, turn) +
    if phase != Ready then []
    else
      ReceiveWf(ready, turn);
      var (served, proceed) := Receive(ready, turn);
      ReceiveEvents(ready, turn) +
      if !proceed then []
      else
        BothEvents(Synchronize(served), turn.rounds)
  }

  function Events(c: Station, turns: seq<Turn>): seq<Event>
    requires Wf(c.service)
    decreases |turns|
  {
    if turns == [] then []
    else
      PassWf(c, turns[0]);
      var pass := Pass(c, turns[0]);
      PassEvents(c, turns[0]) + if pass.stopped then [] else Events(pass.after, turns[1..])
  }

  // ---------------------------------------------------------------------
  // The service of the station runs through exactly these events.

  lemma {:induction false} RunJoins(s: State, a: seq<Event>, b: seq<Event>)
    requires Wf(s)
    ensures Run(s, a + b) == Run(Run(s, a), b)
    decreases |a|
  {
    hide Next, Wf;
    if a == [] {
      assert a + b == b;
    } else {
      assert (a + b)[0] == a[0] && (a + b)[1..] == a[1..] + b;
      RunJoins(Next(s, a[0]), a[1..], b);
    }
  }

  lemma RunOne(s: State, e: Event)
    requires Wf(s)
    ensures Run(s, [e]) == Next(s, e)
  {
    assert [e][1..] == [];
    hide Next;
  }

  lemma RunTwo(s: State, e: Event, f: Event)
    requires Wf(s)
    ensures Run(s, [e] + [f]) == Next(Next(s, e), f)
  {
    hide Next, Wf;
    RunJoins(s, [e], [f]);
    RunOne(s, e);
    RunOne(Next(s, e), f);
  }

  lemma PrepareIsARun(c: Station, turn: Turn)
    requires Wf(c.service)
    ensures Prepare(c, turn).0.service == Run(c.service, PrepareEvents(c, turn))
  {
    TickWf(c.service, turn.start);
    var ticked := Tick(c.service, turn.start);
    assert Next(c.service, Ticked(turn.start)) == ticked;
    assert Next(ticked, LinkLost) == End(ticked);
    assert Next(End(ticked), LinkLost) == End(End(ticked)) by { CountedWf(ticked, ZERO); }
    SynchronizeKeepsService(Observe(c, turn));
    EndsOnce(ticked);
    hide Tick, Next, Wf, End, AllOpen, BindAll, Synchronize;
    RunOne(c.service, Ticked(turn.start));
    RunTwo(c.service, Ticked(turn.start), LinkLost);
    RunJoins(c.service, [Ticked(turn.start)] + [LinkLost], [LinkLost]);
    RunOne(Next(ticked, LinkLost), LinkLost);
    assert [Ticked(turn.start)] + [] + [] == [Ticked(turn.start)];
    assert [Ticked(turn.start)] + [LinkLost] + [] == [Ticked(turn.start)] + [LinkLost];
    assert [Ticked(turn.start)] + [] + [LinkLost] == [Ticked(turn.start)] + [LinkLost];
  }

  lemma EndsOnce(s: State)
    ensures End(End(s)) == End(s)
  {
  }

  lemma SentIsNext(s: State, socket: nat, sent: bool)
    requires Wf(s) && socket < 3
    ensures Next(s, Delivered(socket, sent)) == s.(counters := s.counters.Sent(socket, sent))
  {
    hide Wf, Tick, Handle, BenchmarkSpec.Poll;
  }

  lemma SkipIsNext(s: State)
    requires Wf(s)
    ensures Next(s, Dropped(1)) == s.(counters := s.counters.Skip(1))
  {
    hide Wf, Tick, Handle, BenchmarkSpec.Poll;
  }

  lemma CountsAreEvents(s: State, socket: nat, sent: bool)
    requires Wf(s) && socket < 3
    ensures Wf(s.(counters := s.counters.Sent(socket, sent)))
    ensures Run(s, [Delivered(socket, sent)]) == s.(counters := s.counters.Sent(socket, sent))
    ensures Run(s, [Dropped(1)]) == s.(counters := s.counters.Skip(1))
    ensures Run(s, [Delivered(socket, sent)] + [Dropped(1)]) ==
              s.(counters := s.counters.Sent(socket, sent).Skip(1))
  {
    var after := s.(counters := s.counters.Sent(socket, sent));
    SentIsNext(s, socket, sent);
    SkipIsNext(s);
    hide Next, Wf, Run;
    SkipIsNext(after);
    RunOne(s, Delivered(socket, sent));
    RunOne(s, Dropped(1));
    RunTwo(s, Delivered(socket, sent), Dropped(1));
  }

  /** A clock reading first, and then some more events. */
  lemma RunTicked(s: State, now: u64, rest: seq<Event>)
    requires Wf(s)
    ensures Wf(Tick(s, now)) && Run(s, [Ticked(now)] + rest) == Run(Tick(s, now), rest)
  {
    TickWf(s, now);
    assert Next(s, Ticked(now)) == Tick(s, now);
    hide Next, Tick, Wf;
    RunOne(s, Ticked(now));
    RunJoins(s, [Ticked(now)], rest);
  }

  lemma RunLost(s: State)
    requires Wf(s)
    ensures Run(s, [LinkLost]) == End(s)
  {
    assert Next(s, LinkLost) == End(s);
    hide Next, End, Wf;
    RunOne(s, LinkLost);
  }

  lemma ReplyIsARun(c: Station, reply: Envelope, turn: Turn)
    requires Wf(c.service)
    ensures Reply(c, reply, turn).service == Run(c.service, ReplyEvents(c, reply, turn))
  {
    hide Tick, Wf;
    var sent := turn.encoded && Sends(c.command, COMMAND_CAPACITY, turn.accepted);
    RunTicked(c.service, turn.answered, []);
    RunTicked(c.service, turn.answered, [Delivered(0, sent)]);
    CountsAreEvents(Tick(c.service, turn.answered), 0, sent);
  }

  lemma ServeIsARun(c: Station, request: Envelope, peer: Peer, turn: Turn)
    requires Wf(c.service)
    ensures Serve(c, request, peer, turn).0.service == Run(c.service, ServeEvents(c, request, peer, turn))
  {
    var (service, reply) := Handle(c.service, request, peer, turn.handled);
    var e := Received(request, peer, turn.handled);
    assert Next(c.service, e) == service;
    HandleWf(c.service, request, peer, turn.handled);
    SynchronizeKeepsService(c.(service := service));
    var ready := Synchronize(c.(service := service));
    hide Handle, Wf, End, Reply, ReplyEvents, Synchronize, Next;
    RunOne(c.service, e);
    RunLost(service);
    RunJoins(c.service, [e], [LinkLost]);
    assert [e] + [] == [e];
    if reply.Some? {
      var bound := ready.(command := Bound(ready.command, true));
      ReplyIsARun(bound, reply.value, turn);
      RunJoins(c.service, [e], ReplyEvents(bound, reply.value, turn));
    }
  }

  lemma ReceiveIsARun(c: Station, turn: Turn)
    requires Wf(c.service)
    ensures Receive(c, turn).0.service == Run(c.service, ReceiveEvents(c, turn))
  {
    match turn.received
    case Nothing =>
    case Foreign =>
    case Broken => RejectIsARun(c.service, false);
    case Misaddressed => RejectIsARun(c.service, false);
    case Unreadable(error) => RejectIsARun(c.service, error == CodecError.Crc);
    case Request(request, peer) => ServeIsARun(c, request, peer, turn);
  }

  lemma RejectIsARun(s: State, crc: bool)
    requires Wf(s)
    ensures Run(s, [Event.Undecodable(crc)]) == BenchmarkSpec.Reject(s, crc)
  {
    RunOne(s, Event.Undecodable(crc));
  }

  lemma DeliverIsARun(c: Station, index: nat, sample: Envelope, round: Round)
    requires Wf(c.service) && index < 2
    ensures Deliver(c, index, sample, round).service == Run(c.service, DeliverEvents(c, index, sample, round))
  {
    hide Tick, Wf;
    var sent := round.encoded && Sends(c.streams[index].socket, STREAM_CAPACITY, round.accepted);
    RunTicked(c.service, round.queued, []);
    RunTicked(c.service, round.queued, [Delivered(index + 1, sent)]);
    RunTicked(c.service, round.queued, [Delivered(index + 1, sent)] + [Dropped(1)]);
    CountsAreEvents(Tick(c.service, round.queued), index + 1, sent);
    assert [Delivered(index + 1, sent)] + [] == [Delivered(index + 1, sent)];
  }

  lemma PublishIsARun(c: Station, index: nat, round: Round)
    requires Wf(c.service) && index < 2
    ensures PublishNewest(c, index, round).0.service == Run(c.service, PublishEvents(c, index, round))
  {
    RunLost(c.service);
    var e := Polled(index, round.polled);
    PollWf(c.service, index, round.polled);
    var (service, sample) := BenchmarkSpec.Poll(c.service, index, round.polled);
    assert Next(c.service, e) == service;
    RunOne(c.service, e);
    assert [e] + [] == [e];
    if sample.Some? && Bound(c.streams[index].socket, round.bind).open {
      SampledIsARun(c, index, round, service, sample.value);
    }
  }

  lemma SampledIsARun(c: Station, index: nat, round: Round, service: State, sample: Envelope)
    requires Wf(c.service) && index < 2 && Wf(service) && Bound(c.streams[index].socket, round.bind).open
    requires BenchmarkSpec.Poll(c.service, index, round.polled) == (service, Some(sample))
    requires Run(c.service, [Polled(index, round.polled)]) == service
    ensures PublishNewest(c, index, round).0.service == Run(c.service, PublishEvents(c, index, round))
  {
    var e := Polled(index, round.polled);
    var socket := Bound(c.streams[index].socket, round.bind);
    var noted := c.(service := service, streams := c.streams[index := Stream(socket, Some(sample))]);
    var emptied := Emptied(noted, index, round.rebind);
    CountsAreEvents(service, 0, true);
    CountedWf(service, service.counters.Skip(1));
    RunLost(emptied.service);
    hide BenchmarkSpec.Poll, Wf, End, Deliver, DeliverEvents;
    var rest := if socket.queue == [] then DeliverEvents(noted, index, sample, round)
                else [Dropped(1)] + (if round.rebind then DeliverEvents(emptied, index, sample, round) else [LinkLost]);
    assert PublishEvents(c, index, round) == [e] + rest;
    RunJoins(c.service, [e], rest);
    DeliverIsARun(noted, index, sample, round);
    DeliverIsARun(emptied, index, sample, round);
    RunJoins(service, [Dropped(1)], DeliverEvents(emptied, index, sample, round));
    RunJoins(service, [Dropped(1)], [LinkLost]);
  }

  lemma PassIsARun(c: Station, turn: Turn)
    requires Wf(c.service)
    ensures Pass(c, turn).after.service == Run(c.service, PassEvents(c, turn))
  {
    hide Prepare, PrepareEvents, Receive, ReceiveEvents, PublishNewest, PublishEvents, Wf, End, Synchronize;
    var drained := Drained(c, turn.first);
    PrepareIsARun(drained, turn);
    PrepareWf(drained, turn);
    var (ready, phase) := Prepare(drained, turn);
    assert PrepareEvents(drained, turn) + [] == PrepareEvents(drained, turn);
    if phase == Ready {
      ReceiveIsARun(ready, turn);
      ReceiveWf(ready, turn);
      var (served, proceed) := Receive(ready, turn);
      assert ReceiveEvents(ready, turn) + [] == ReceiveEvents(ready, turn);
      RunJoins(c.service, PrepareEvents(drained, turn), ReceiveEvents(ready, turn));
      if proceed {
        var first := Synchronize(served);
        SynchronizeKeepsService(served);
        PublishBothIsARun(first, turn.rounds);
        SynchronizeKeepsService(PublishBoth(first, turn.rounds));
        var events := BothEvents(first, turn.rounds);
        RunJoins(ready.service, ReceiveEvents(ready, turn), events);
        RunJoins(c.service, PrepareEvents(drained, turn), ReceiveEvents(ready, turn) + events);
      }
    }
  }

  lemma PublishBothIsARun(c: Station, rounds: Rounds)
    requires Wf(c.service)
    ensures PublishBoth(c, rounds).service == Run(c.service, BothEvents(c, rounds))
  {
    hide PublishNewest, PublishEvents, Wf;
    PublishWf(c, 0, rounds[0]);
    var (second, bound) := PublishNewest(c, 0, rounds[0]);
    PublishIsARun(c, 0, rounds[0]);
    PublishIsARun(second, 1, rounds[1]);
    RunJoins(c.service, PublishEvents(c, 0, rounds[0]), PublishEvents(second, 1, rounds[1]));
    assert PublishEvents(c, 0, rounds[0]) + [] == PublishEvents(c, 0, rounds[0]);
  }

  /** Any series of passes takes the service through a run of its own. */
  lemma {:induction false} PassesAreARun(c: Station, turns: seq<Turn>)
    requires Wf(c.service)
    ensures Passes(c, turns).after.service == Run(c.service, Events(c, turns))
    decreases |turns|
  {
    hide Pass, PassEvents, Wf;
    if turns != [] {
      PassIsARun(c, turns[0]);
      PassWf(c, turns[0]);
      var pass := Pass(c, turns[0]);
      PassesAreARun(pass.after, turns[1..]);
      RunJoins(c.service, PassEvents(c, turns[0]), Events(pass.after, turns[1..]));
      assert PassEvents(c, turns[0]) + [] == PassEvents(c, turns[0]);
    }
  }
}
