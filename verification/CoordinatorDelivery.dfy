/** What the coordinator does deliver: due samples and replies, whenever nothing outside stands in the way. */
module CoordinatorDelivery {
  import opened Machine
  import opened Messages
  import opened Benchmark
  import opened BenchmarkSpec
  import opened BenchmarkRuns
  import opened BenchmarkReplies
  import opened CoordinatorSpec

  /** A reading of the clock that neither steps back nor reaches the end of the lease, if there is one. */
  predicate Calm(s: State, now: u64) {
    s.lastTime <= now && (s.lease.Some? ==> now < s.lease.value.expiry)
  }

  /** Two states with the same run and the same counters. */
  predicate SameRun(s: State, t: State) {
    CoreOf(s) == CoreOf(t) && s.counters == t.counters
  }

  lemma CalmTick(s: State, now: u64)
    requires Wf(s) && Calm(s, now)
    ensures Wf(Tick(s, now)) && SameRun(Tick(s, now), s) && Tick(s, now).lastTime == now
  {
    TickWf(s, now);
  }

  // ---------------------------------------------------------------------
  // Single steps.

  /** A sample of the current run is queued exactly if it encodes and the network takes it on an open, empty socket. */
  lemma DeliverIsExact(c: Station, index: nat, sample: Envelope, round: Round)
    requires Wf(c.service) && index < 2 && Calm(c.service, round.queued)
    requires c.service.lease.Some? && sample.runEpoch == Some(c.service.epoch)
    ensures var after := Deliver(c, index, sample, round);
            var socket, counters := c.streams[index].socket, c.service.counters;
            var sent := round.encoded && round.accepted && socket.open && socket.queue == [];
            after == c.(service := after.service, streams := after.streams) &&
            after.streams[1 - index] == c.streams[1 - index] &&
            after.streams[index] ==
              c.streams[index].(socket := Socket(socket.open, if sent then [sample] else socket.queue)) &&
            CoreOf(after.service) == CoreOf(c.service) && after.service.lastTime == round.queued &&
            (sent ==> after.service.counters == counters.(active := counters.active[index + 1 := false])) &&
            (!sent ==>
               after.service.counters == counters.(
                 active := counters.active[index + 1 := true],
                 sendErrors := if counters.sendErrors == 0xFFFF_FFFF then 0xFFFF_FFFF else counters.sendErrors + 1,
                 skipped := if counters.skipped == 0xFFFF_FFFF then 0xFFFF_FFFF else counters.skipped + 1))
  {
    CalmTick(c.service, round.queued);
    hide Tick, Wf;
  }

  /** A reply is appended exactly if it encodes and the network takes it on an open socket with at most one waiting. */
  lemma ReplyIsExact(c: Station, reply: Envelope, turn: Turn)
    requires Wf(c.service) && Calm(c.service, turn.answered)
    requires reply.kind == Some(15) ==> c.service.lease.Some? && reply.runEpoch == Some(c.service.epoch)
    ensures var after := Reply(c, reply, turn);
            var socket, counters := c.command, c.service.counters;
            var sent := turn.encoded && turn.accepted && socket.open && |socket.queue| <= 1;
            after == c.(service := after.service, command := after.command) &&
            after.command == Socket(socket.open, socket.queue + if sent then [reply] else []) &&
            CoreOf(after.service) == CoreOf(c.service) && after.service.lastTime == turn.answered &&
            (sent ==> after.service.counters == counters.(active := counters.active[0 := false])) &&
            (!sent ==>
               after.service.counters == counters.(
                 active := counters.active[0 := true],
                 sendErrors := if counters.sendErrors == 0xFFFF_FFFF then 0xFFFF_FFFF else counters.sendErrors + 1))
  {
    CalmTick(c.service, turn.answered);
    hide Tick, Wf;
  }

  /** What is refused is counted while a lease is held, and changes nothing else; noise from elsewhere is ignored. */
  lemma RefusalsAreCounted(c: Station, turn: Turn)
    requires Wf(c.service) && !turn.received.Request?
    ensures var (after, proceed) := Receive(c, turn);
            var counters := c.service.counters;
            var counted := c.service.lease.Some? && turn.received !in {Nothing, Foreign};
            var damaged := counted && turn.received == Unreadable(CodecError.Crc);
            proceed && after == c.(service := c.service.(counters := counters.(
              rejected := counters.rejected + if counted && counters.rejected < 0xFFFF_FFFF then 1 else 0,
              crcRejections :=
                counters.crcRejections + if damaged && counters.crcRejections < 0xFFFF_FFFF then 1 else 0)))
  {
    hide Wf;
  }

  /** The network takes datagrams in the order in which they were queued. */
  lemma TakenInOrder(s: Socket, n: nat)
    ensures exists taken: seq<Envelope> ::
              taken + Taken(s, n).queue == s.queue && |taken| == Min(n, |s.queue|) && Taken(s, n).open == s.open
  {
    var taken := s.queue[..Min(n, |s.queue|)];
    assert taken + Taken(s, n).queue == s.queue;
  }

  // ---------------------------------------------------------------------
  // One stream.

  /** Everything that this part of a turn could go wrong with goes right. */
  predicate Smooth(round: Round) {
    round.bind && round.rebind && round.encoded && round.accepted && round.polled <= round.queued
  }

  predicate IsDue(s: State, index: nat, now: u64)
    requires index < 2
  {
    s.lease.Some? && s.schedules[index].period > 0 && s.schedules[index].due <= now
  }

  /** The newest sample of a stream that is due: of this run, and numbered by the slots that have passed. */
  predicate IsNewest(m: Envelope, s: State, index: nat, now: u64)
    requires index < 2
  {
    IsDue(s, index, now) && m.kind == Some(21 + index) && m.runEpoch == Some(s.epoch) &&
    m.sessionId == Some(s.lease.value.session) &&
    var row := s.schedules[index];
    m.sequence == Some(Wrap32(row.sequence + (now - row.due) / row.period))
  }

  /** What a stream shows after its part of a turn: the newest due sample alone, or what was there. */
  predicate Shows(before: Stream, after: Stream, s: State, index: nat, now: u64)
    requires index < 2
  {
    if IsDue(s, index, now) then
      after.newest.Some? && after.socket == Socket(true, [after.newest.value]) &&
      IsNewest(after.newest.value, s, index, now)
    else after == before.(socket := Socket(true, before.socket.queue))
  }

  /** The parts of a service that polling or sending one stream leaves alone. */
  predicate OnlyStreamMoved(s: State, t: State, index: nat)
    requires index < 2
  {
    Wf(t) && t.lease == s.lease && t.epoch == s.epoch && t.schedules[1 - index] == s.schedules[1 - index] &&
    t.counters.sendErrors == s.counters.sendErrors
  }

  lemma PublishIsNewest(s: State, index: nat, now: u64)
    requires Wf(s) && index < 2
    ensures var (after, sample) := BenchmarkSpec.Publish(s, index, now);
            (sample.Some? <==> IsDue(s, index, now)) && (sample.Some? ==> IsNewest(sample.value, s, index, now)) &&
            after.lease == s.lease && after.epoch == s.epoch && after.lastTime == s.lastTime &&
            after.schedules[1 - index] == s.schedules[1 - index] && after.counters.sendErrors == s.counters.sendErrors
  {
    hide Wf;
    if IsDue(s, index, now) {
      var row := s.schedules[index];
      DivisionBounds(now - row.due, row.period);
      WrapAdds((now - row.due) / row.period, row.sequence);
    }
  }

  lemma PollIsCalm(s: State, index: nat, now: u64)
    requires Wf(s) && index < 2 && Calm(s, now)
    ensures var (after, sample) := BenchmarkSpec.Poll(s, index, now);
            OnlyStreamMoved(s, after, index) && after.lastTime == now &&
            (sample.Some? <==> IsDue(s, index, now)) && (sample.Some? ==> IsNewest(sample.value, s, index, now))
  {
    CalmTick(s, now);
    PollWf(s, index, now);
    var t := Tick(s, now);
    PublishIsNewest(t, index, now);
    assert BenchmarkSpec.Poll(s, index, now) == BenchmarkSpec.Publish(t, index, now);
    hide Tick, Wf, BenchmarkSpec.Poll, BenchmarkSpec.Publish;
  }

  lemma SkippingIsCalm(s: State, t: State, index: nat)
    requires index < 2 && OnlyStreamMoved(s, t, index)
    ensures OnlyStreamMoved(s, t.(counters := t.counters.Skip(1)), index)
  {
    CountedWf(t, t.counters.Skip(1));
    hide Wf;
  }

  /** A sample on an open, empty socket. */
  lemma SampleIsQueued(s: State, c: Station, index: nat, sample: Envelope, round: Round)
    requires index < 2 && OnlyStreamMoved(s, c.service, index) && s.lease.Some? && Calm(c.service, round.queued)
    requires Smooth(round) && c.streams[index].socket == Socket(true, []) && sample.runEpoch == Some(s.epoch)
    ensures var after := Deliver(c, index, sample, round);
            after == c.(service := after.service, streams := after.streams) &&
            after.streams[1 - index] == c.streams[1 - index] &&
            after.streams[index] == Stream(Socket(true, [sample]), c.streams[index].newest) &&
            OnlyStreamMoved(s, after.service, index) && after.service.lastTime == round.queued
  {
    DeliverWf(c, index, sample, round);
    hide Wf;
    DeliverIsExact(c, index, sample, round);
    hide Deliver;
  }

  /** One stream's part of a turn: what is due is queued alone, and nothing else changes. */
  lemma PublishDelivers(c: Station, index: nat, round: Round)
    requires Wf(c.service) && index < 2 && Smooth(round)
    requires Calm(c.service, round.polled) && Calm(c.service, round.queued)
    ensures var (after, bound) := PublishNewest(c, index, round);
            bound && after == c.(service := after.service, streams := after.streams) &&
            after.streams[1 - index] == c.streams[1 - index] &&
            Shows(c.streams[index], after.streams[index], c.service, index, round.polled) &&
            OnlyStreamMoved(c.service, after.service, index) && after.service.lastTime <= round.queued
  {
    PollIsCalm(c.service, index, round.polled);
    var (service, sample) := BenchmarkSpec.Poll(c.service, index, round.polled);
    hide BenchmarkSpec.Poll, Deliver, Wf;
    if sample.Some? {
      var socket := Bound(c.streams[index].socket, round.bind);
      var noted := c.(service := service, streams := c.streams[index := Stream(socket, sample)]);
      SkippingIsCalm(c.service, service, index);
      if socket.queue == [] {
        SampleIsQueued(c.service, noted, index, sample.value, round);
      } else {
        SampleIsQueued(c.service, Emptied(noted, index, round.rebind), index, sample.value, round);
      }
    }
  }

  predicate SmoothRounds(s: State, rounds: Rounds) {
    Smooth(rounds[0]) && Smooth(rounds[1]) && Calm(s, rounds[0].polled) && rounds[0].queued <= rounds[1].polled &&
    Calm(s, rounds[1].queued)
  }

  /** What both streams show after a turn. */
  predicate BothShow(before: Streams, after: Streams, s: State, rounds: Rounds) {
    Shows(before[0], after[0], s, 0, rounds[0].polled) && Shows(before[1], after[1], s, 1, rounds[1].polled)
  }

  lemma ShowsAlike(before: Stream, after: Stream, s: State, t: State, index: nat, now: u64)
    requires index < 2 && t.lease == s.lease && t.epoch == s.epoch && t.schedules[index] == s.schedules[index]
    ensures Shows(before, after, s, index, now) == Shows(before, after, t, index, now)
  {
  }

  lemma PublishBothDelivers(c: Station, rounds: Rounds)
    requires Wf(c.service) && SmoothRounds(c.service, rounds) && c.generation == Current(c.service)
    ensures var after := PublishBoth(c, rounds);
            after == c.(service := after.service, streams := after.streams) && Synchronize(after) == after &&
            BothShow(c.streams, after.streams, c.service, rounds) &&
            Wf(after.service) && after.service.lease == c.service.lease && after.service.epoch == c.service.epoch &&
            after.service.counters.sendErrors == c.service.counters.sendErrors &&
            after.service.lastTime <= rounds[1].queued
  {
    hide Wf, PublishNewest, Shows;
    var first := PublishNewest(c, 0, rounds[0]).0;
    PublishDelivers(c, 0, rounds[0]);
    var second := PublishNewest(first, 1, rounds[1]).0;
    PublishDelivers(first, 1, rounds[1]);
    ShowsAlike(c.streams[1], second.streams[1], c.service, first.service, 1, rounds[1].polled);
  }

  // ---------------------------------------------------------------------
  // Whole passes.

  /** The link is as it was, every socket can be bound, and every datagram encodes and is taken. */
  predicate Fair(c: Station, turn: Turn) {
    turn.linkUp && turn.network.Some? && turn.network == c.network &&
    turn.bindCommand && turn.bindStatus && turn.bindHealth && turn.rebind && turn.encoded && turn.accepted
  }

  function Opened(c: Station): Station {
    c.(command := Socket(true, c.command.queue),
       streams := [c.streams[0].(socket := Socket(true, c.streams[0].socket.queue)),
                   c.streams[1].(socket := Socket(true, c.streams[1].socket.queue))])
  }

  lemma PrepareIsSmooth(c: Station, turn: Turn)
    requires Wf(c.service) && Fair(c, turn) && Calm(c.service, turn.start) && c.generation == Current(c.service)
    ensures Prepare(c, turn) == (Opened(c).(service := Tick(c.service, turn.start)), Ready)
  {
    CalmTick(c.service, turn.start);
    hide Tick, Wf, End, CloseAll;
    var ticked := c.(service := Tick(c.service, turn.start));
    assert Observe(c, turn) == ticked && Synchronize(ticked) == ticked;
    assert BindAll(ticked, turn) == Opened(ticked);
  }

  /** Whatever became of the link, the station goes by what it saw last. */
  lemma NetworkIsNoted(c: Station, turn: Turn)
    ensures Prepare(c, turn).0.network == turn.network
  {
    hide Tick, End;
  }

  /** A pass without a request, in which the clock stays within the lease. */
  predicate Quiet(c: Station, turn: Turn) {
    Fair(c, turn) && turn.received == Nothing && c.generation == Current(c.service) && Calm(c.service, turn.start) &&
    turn.start <= turn.rounds[0].polled && SmoothRounds(c.service, turn.rounds)
  }

  /**
   * In a quiet pass the run goes on, no error is counted, and the last moment shows for each stream the newest
   * due sample alone, or what was still waiting; the replies still wait as they did.
   */
  lemma DueSamplesAreDelivered(c: Station, turn: Turn)
    requires Wf(c.service) && Quiet(c, turn)
    ensures var (drained, pass) := (Drained(c, turn.first), Pass(c, turn));
            !pass.stopped && |pass.moments| == 2 && pass.moments[0] == MomentOf(c) &&
            var (shown, done) := (pass.moments[1], pass.after);
            (exists streams: Streams ::
               BothShow(drained.streams, streams, c.service, turn.rounds) &&
               shown == Moment(c.service.epoch, c.service.lease.Some?, drained.command.queue,
                               [streams[0].socket.queue, streams[1].socket.queue],
                               [streams[0].newest, streams[1].newest])) &&
            done.service.lease == c.service.lease && done.service.epoch == c.service.epoch &&
            done.service.counters.sendErrors == c.service.counters.sendErrors &&
            Wf(done.service) && done.service.lastTime <= turn.rounds[1].queued &&
            done.generation == Current(done.service) && done.network == turn.network
  {
    var drained := Drained(c, turn.first);
    CalmTick(c.service, turn.start);
    PrepareIsSmooth(drained, turn);
    var (ready, phase) := Prepare(drained, turn);
    assert Receive(ready, turn) == (ready, true) && Synchronize(ready) == ready;
    hide Wf, Tick, PublishBoth, Prepare, Receive, Shows;
    PublishBothDelivers(ready, turn.rounds);
    var done := PublishBoth(ready, turn.rounds);
    ShowsIgnoresOpening(drained.streams, done.streams, ready.service, c.service, turn.rounds);
    assert Pass(c, turn).moments == [MomentOf(c), MomentOf(done)];
  }

  lemma ShowsIgnoresOpening(before: Streams, after: Streams, s: State, t: State, rounds: Rounds)
    requires CoreOf(s) == CoreOf(t)
    requires BothShow([before[0].(socket := Socket(true, before[0].socket.queue)),
                       before[1].(socket := Socket(true, before[1].socket.queue))], after, s, rounds)
    ensures BothShow(before, after, t, rounds)
  {
  }

  // ---------------------------------------------------------------------
  // Replies.

  lemma EchoCarriesTheRun(s: State, r: Envelope, peer: Peer, now: u64)
    requires Wf(s)
    ensures var (after, reply) := Handle(s, r, peer, now);
            reply.Some? && reply.value.kind == Some(15) ==>
              after.lease.Some? && reply.value.runEpoch == Some(after.epoch)
  {
    TickWf(s, now);
    var t := Tick(s, now);
    ReplyKinds(t, r, peer, now);
    hide Tick, Perform;
  }

  /** The station once a request has been handled and the queues belong to the run it has led to. */
  function HandledStation(c: Station, turn: Turn): Station
    requires Wf(c.service) && turn.received.Request?
  {
    TickWf(c.service, turn.start);
    var service := Handle(Tick(c.service, turn.start), turn.received.request, turn.received.peer, turn.handled).0;
    if c.generation == Current(service) then Opened(Drained(c, turn.first)).(service := service)
    else
      CloseAll(Drained(c, turn.first)).(
        service := service, generation := Current(service), command := Socket(true, []))
  }

  /** A pass with one request, in which the clock stays within the lease that the request leads to, if any. */
  predicate Asking(c: Station, turn: Turn)
    requires Wf(c.service)
  {
    Fair(c, turn) && turn.received.Request? && c.generation == Current(c.service) && Calm(c.service, turn.start) &&
    var s := HandledStation(c, turn).service;
    Calm(s, turn.answered) && turn.answered <= turn.rounds[0].polled && SmoothRounds(s, turn.rounds)
  }

  lemma ServeIsSmooth(c: Station, turn: Turn, m: Envelope)
    requires Wf(c.service) && Asking(c, turn) && |HandledStation(c, turn).command.queue| <= 1
    requires Wf(Tick(c.service, turn.start))
    requires Handle(Tick(c.service, turn.start), turn.received.request, turn.received.peer, turn.handled).1 == Some(m)
    ensures var (before, ready) := (HandledStation(c, turn), Opened(Drained(c, turn.first)));
            var (served, proceed) := Receive(ready.(service := Tick(c.service, turn.start)), turn);
            proceed && served == before.(service := served.service, command := served.command) &&
            served.command == Socket(true, before.command.queue + [m]) && Wf(served.service) &&
            CoreOf(served.service) == CoreOf(before.service) && served.service.lastTime == turn.answered &&
            served.service.counters.sendErrors == before.service.counters.sendErrors &&
            served.generation == Current(served.service)
  {
    hide Handle, Tick, Wf, Reply, End;
    var ticked := Tick(c.service, turn.start);
    var (request, peer) := (turn.received.request, turn.received.peer);
    EchoCarriesTheRun(ticked, request, peer, turn.handled);
    HandleWf(ticked, request, peer, turn.handled);
    var before, ready := HandledStation(c, turn), Opened(Drained(c, turn.first)).(service := ticked);
    ReplyIsExact(before, m, turn);
    ReplyWf(before, m, turn);
    var synchronized := Synchronize(ready.(service := before.service));
    assert synchronized.(command := Bound(synchronized.command, true)) == before;
    assert Receive(ready, turn) == (Reply(before, m, turn), true);
  }

  /**
   * A reply is appended to what waits for the current run, behind at most one other, and the last moment of the
   * pass shows it there, while the streams show what is due in that run.
   */
  lemma RepliesAreDelivered(c: Station, turn: Turn, m: Envelope)
    requires Wf(c.service) && Asking(c, turn) && |HandledStation(c, turn).command.queue| <= 1
    requires Wf(Tick(c.service, turn.start))
    requires Handle(Tick(c.service, turn.start), turn.received.request, turn.received.peer, turn.handled).1 == Some(m)
    ensures var (before, pass) := (HandledStation(c, turn), Pass(c, turn));
            !pass.stopped && |pass.moments| == 2 &&
            var (shown, s) := (pass.moments[1], before.service);
            exists streams: Streams ::
              BothShow(before.streams, streams, s, turn.rounds) &&
              shown == Moment(s.epoch, s.lease.Some?, before.command.queue + [m],
                              [streams[0].socket.queue, streams[1].socket.queue],
                              [streams[0].newest, streams[1].newest]) &&
              pass.after.service.counters.sendErrors == s.counters.sendErrors
  {
    hide Wf, Tick, Handle;
    var drained, before := Drained(c, turn.first), HandledStation(c, turn);
    PrepareIsSmooth(drained, turn);
    ServeIsSmooth(c, turn, m);
    var (ready, phase) := Prepare(drained, turn);
    var served := Receive(ready, turn).0;
    assert Synchronize(served) == served;
    hide PublishBoth, Prepare, Receive, Shows, HandledStation, Synchronize;
    PublishBothDelivers(served, turn.rounds);
    var done := PublishBoth(served, turn.rounds);
    BothShowAlike(before.streams, done.streams, served.service, before.service, turn.rounds);
    assert Pass(c, turn).moments == [MomentOf(c), MomentOf(done)];
  }

  lemma BothShowAlike(before: Streams, after: Streams, s: State, t: State, rounds: Rounds)
    requires CoreOf(s) == CoreOf(t) && BothShow(before, after, s, rounds)
    ensures BothShow(before, after, t, rounds)
  {
  }

  // ---------------------------------------------------------------------
  // Many passes.

  /** Quiet turns one after another, seen from the service they start with: only the clock matters. */
  predicate AllQuiet(s: State, network: Network, from: u64, turns: seq<Turn>)
    decreases |turns|
  {
    turns == [] ||
    var turn := turns[0];
    turn.linkUp && turn.network.Some? && turn.network == network &&
    turn.bindCommand && turn.bindStatus && turn.bindHealth && turn.rebind && turn.encoded && turn.accepted &&
    turn.received == Nothing && from <= turn.start <= turn.rounds[0].polled &&
    SmoothRounds(s.(lastTime := turn.start), turn.rounds) && AllQuiet(s, network, turn.rounds[1].queued, turns[1..])
  }

  /** However long the link holds and the clock stays within the lease, the run goes on, and every moment shows it. */
  lemma {:induction false} QuietPassesKeepTheRun(c: Station, s: State, from: u64, turns: seq<Turn>)
    requires Wf(c.service) && c.generation == Current(c.service) && c.service.lastTime <= from
    requires c.service.lease == s.lease && c.service.epoch == s.epoch && AllQuiet(s, c.network, from, turns)
    ensures var passes := Passes(c, turns);
            !passes.stopped && passes.after.service.lease == s.lease && passes.after.service.epoch == s.epoch &&
            passes.after.service.counters.sendErrors == c.service.counters.sendErrors &&
            forall k :: 0 <= k < |passes.moments| ==>
              passes.moments[k].active == s.lease.Some? && passes.moments[k].epoch == s.epoch
    decreases |turns|
  {
    hide Wf, Pass, Shows;
    if turns != [] {
      DueSamplesAreDelivered(c, turns[0]);
      PassWf(c, turns[0]);
      QuietPassesKeepTheRun(Pass(c, turns[0]).after, s, turns[0].rounds[1].queued, turns[1..]);
    }
  }
}
