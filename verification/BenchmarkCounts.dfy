/** What the counters of a run count: while its lease is kept, exactly the events of their kind. */
module BenchmarkCounts {
  import opened Machine
  import opened Benchmark
  import opened BenchmarkSpec
  import opened BenchmarkRuns
  import opened BenchmarkStreams

  datatype Tally = Tally(received: nat, rejected: nat, crc: nat, errors: nat)

  /** What one event adds: accepted requests and echoes, refusals, checksum failures, failed sends. */
  function Added(s: State, e: Event): Tally
    requires Wf(s)
  {
    match e
    case Received(request, peer, now) =>
      TickWf(s, now);
      (match Judge(Tick(s, now), request, peer)
       case Ignored => Tally(0, 1, 0, 0)
       case Discovery => Tally(0, 0, 0, 0)
       case Probe => Tally(1, 0, 0, 0)
       case Result(code) => if code in {1, 3} then Tally(1, 0, 0, 0) else if code == 2 then Tally(0, 0, 0, 0)
                            else Tally(0, 1, 0, 0))
    case Undecodable(crc) => Tally(0, 1, if crc then 1 else 0, 0)
    case Delivered(socket, success) => Tally(0, 0, 0, if socket < 3 && !success then 1 else 0)
    case _ => Tally(0, 0, 0, 0)
  }

  function Total(s: State, es: seq<Event>): Tally
    requires Wf(s)
    decreases |es|
  {
    if es == [] then Tally(0, 0, 0, 0)
    else
      var (first, rest) := (Added(s, es[0]), Total(Next(s, es[0]), es[1..]));
      Tally(first.received + rest.received, first.rejected + rest.rejected, first.crc + rest.crc,
            first.errors + rest.errors)
  }

  /** Counters that have counted so much more, and stopped at the largest 32-bit number. */
  predicate Counted(before: Counters, after: Counters, t: Tally) {
    after.received == Min(before.received + t.received, 0xFFFF_FFFF) &&
    after.rejected == Min(before.rejected + t.rejected, 0xFFFF_FFFF) &&
    after.crcRejections == Min(before.crcRejections + t.crc, 0xFFFF_FFFF) &&
    after.sendErrors == Min(before.sendErrors + t.errors, 0xFFFF_FFFF)
  }

  lemma RespondCounts(s: State, r: Envelope, peer: Peer, now: u64)
    requires Wf(s) && s.lease.Some?
    ensures var v := Judge(s, r, peer);
            Counted(s.counters, Respond(s, r, peer, now).0.counters,
                    if v == Ignored then Tally(0, 1, 0, 0)
                    else if v == Discovery then Tally(0, 0, 0, 0)
                    else if v == Probe then Tally(1, 0, 0, 0)
                    else if v.code in {1, 3} then Tally(1, 0, 0, 0)
                    else if v.code == 2 then Tally(0, 0, 0, 0) else Tally(0, 1, 0, 0))
  {
    RespondEffect(s, r, peer, now);
  }

  lemma TickCounts(s: State, now: u64)
    requires Wf(s)
    ensures Wf(Tick(s, now)) && Tick(s, now).counters == s.counters
  {
    TickWf(s, now);
  }

  lemma TimedCounts(s: State, e: Event)
    requires Wf(s) && e.Timed() && Wf(Tick(s, e.now)) && Tick(s, e.now).lease.Some?
    ensures Counted(s.counters, Next(s, e).counters, Added(s, e))
  {
    TickCounts(s, e.now);
    hide Tick, Judge, Respond, TakeSlot, Wf;
    if e.Received? {
      RespondCounts(Tick(s, e.now), e.request, e.peer, e.now);
    }
  }

  lemma UntimedCounts(s: State, e: Event)
    requires Wf(s) && !e.Timed() && s.lease.Some? && Next(s, e).lease.Some?
    ensures Counted(s.counters, Next(s, e).counters, Added(s, e))
  {
    hide Wf;
  }

  /** One event of a run that keeps its lease. */
  lemma EventCounts(s: State, e: Event)
    requires Wf(s) && s.lease.Some? && Next(s, e).lease.Some? && Next(s, e).epoch == s.epoch
    ensures Counted(s.counters, Next(s, e).counters, Added(s, e))
  {
    hide Wf, Next, Tick, Added, Counted;
    if !e.Timed() {
      UntimedCounts(s, e);
    } else {
      TickCounts(s, e.now);
      if Tick(s, e.now).lease.None? {
        EndedTick(s, e.now);
        LeaseIsGone(s, e);
      } else {
        TimedCounts(s, e);
      }
    }
  }

  lemma CountsAdd(a: Counters, b: Counters, c: Counters, first: Tally, rest: Tally)
    requires Counted(a, b, first) && Counted(b, c, rest)
    ensures Counted(a, c, Tally(first.received + rest.received, first.rejected + rest.rejected,
                                first.crc + rest.crc, first.errors + rest.errors))
  {
  }

  lemma CountsNothing(a: Counters)
    ensures Counted(a, a, Tally(0, 0, 0, 0))
  {
  }

  /** Over any run that keeps its lease the counters are exact, on any clock, and checksum failures are rejections. */
  lemma {:induction false} CountersAreExact(s: State, es: seq<Event>)
    requires Wf(s) && Keeps(s, es)
    ensures Counted(s.counters, Run(s, es).counters, Total(s, es)) && Total(s, es).crc <= Total(s, es).rejected
    decreases |es|
  {
    hide Wf, Next, Added, Counted;
    if es == [] {
      CountsNothing(s.counters);
    } else {
      EventCounts(s, es[0]);
      CountersAreExact(Next(s, es[0]), es[1..]);
      CountsAdd(s.counters, Next(s, es[0]).counters, Run(s, es).counters, Added(s, es[0]),
                Total(Next(s, es[0]), es[1..]));
      ChecksumFailuresAreRejections(s, es[0]);
    }
  }

  lemma ChecksumFailuresAreRejections(s: State, e: Event)
    requires Wf(s)
    ensures Added(s, e).crc <= Added(s, e).rejected
  {
    hide Tick, Judge;
  }
}
