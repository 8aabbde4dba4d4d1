/** The two streams of the benchmark service over whole runs: every slot of a lease is published or skipped. */
module BenchmarkStreams {
  import opened Machine
  import opened Messages
  import opened Benchmark
  import opened BenchmarkSpec
  import opened BenchmarkRuns
  import Grid = PublicationSchedule

  function SlotsOf(p: Publication): Grid.Slots {
    Grid.Slots(p.period, p.due, p.sequence)
  }

  /** One lease lasts over the whole run. */
  predicate Keeps(s: State, es: seq<Event>)
    requires Wf(s)
    decreases |es|
  {
    s.lease.Some? && (es == [] || (Next(s, es[0]).epoch == s.epoch && Keeps(Next(s, es[0]), es[1..])))
  }

  predicate Polls(e: Event, index: nat) {
    e.Polled? && e.index == index
  }

  /** The slot that an event takes from a stream, if it takes one. */
  function TakenBy(s: State, e: Event, index: nat): Option<Slot>
    requires Wf(s) && index < 2
  {
    if Polls(e, index) && Due(Tick(s, e.now), index, e.now) then Some(TakeSlot(Tick(s, e.now).schedules[index], e.now))
    else None
  }

  function Published(s: State, es: seq<Event>, index: nat): nat
    requires Wf(s) && index < 2
    decreases |es|
  {
    if es == [] then 0
    else (if TakenBy(s, es[0], index).Some? then 1 else 0) + Published(Next(s, es[0]), es[1..], index)
  }

  function Skipped(s: State, es: seq<Event>, index: nat): nat
    requires Wf(s) && index < 2
    decreases |es|
  {
    if es == [] then 0
    else
      (match TakenBy(s, es[0], index) case Some(slot) => slot.skipped case None => 0) +
      Skipped(Next(s, es[0]), es[1..], index)
  }

  /** The reading of the clock at the last poll of a stream. */
  function LastPoll(es: seq<Event>, index: nat): Option<u64>
    decreases |es|
  {
    if es == [] then None
    else match LastPoll(es[1..], index)
      case Some(now) => Some(now)
      case None => if Polls(es[0], index) then Some(es[0].now) else None
  }

  /** The boundary after each poll still fits the clock. */
  predicate BoundariesFit(es: seq<Event>, index: nat, period: nat, start: nat)
    requires period > 0
  {
    forall i :: 0 <= i < |es| && Polls(es[i], index) && start <= es[i].now ==>
      start + (Grid.Elapsed(period, start, es[i].now) + 1) * period <= U64_MAX
  }

  // ---------------------------------------------------------------------
  // What else happens leaves a stream alone.

  lemma HeldTick(s: State, now: u64)
    requires Wf(s) && s.lease.Some? && Tick(s, now).lease.Some?
    ensures Tick(s, now).schedules == s.schedules && Tick(s, now).epoch == s.epoch && Tick(s, now).lease == s.lease
  {
  }

  lemma EndedTick(s: State, now: u64)
    requires Wf(s) && s.lease.Some? && Tick(s, now).lease.None?
    ensures if s.epoch == U32_MAX then Tick(s, now).exhausted else Tick(s, now).epoch == s.epoch + 1
  {
  }

  lemma RenewLeavesStreams(s: State, r: Envelope, peer: Peer, now: u64)
    requires Wf(s) && s.lease.Some? && Respond(s, r, peer, now).0.lease.Some?
    ensures Respond(s, r, peer, now).0.schedules == s.schedules
  {
    RespondEffect(s, r, peer, now);
    if Judge(s, r, peer) == Result(APPLIED) {
      assert Respond(s, r, peer, now).0 == Perform(s, r, peer, now);
    } else {
      hide Respond, Judge;
    }
  }

  /** Only its own poll moves a stream while the lease lasts. */
  lemma StreamsAreIndependent(s: State, e: Event, index: nat)
    requires Wf(s) && index < 2 && s.lease.Some? && Next(s, e).lease.Some? && Next(s, e).epoch == s.epoch
    ensures !Polls(e, index) ==> Next(s, e).schedules[index] == s.schedules[index]
    ensures Polls(e, index) ==>
              Wf(Tick(s, e.now)) && Tick(s, e.now).schedules == s.schedules && Tick(s, e.now).lease.Some? &&
              (TakenBy(s, e, index).None? ==> Next(s, e).schedules[index] == s.schedules[index]) &&
              (TakenBy(s, e, index).Some? ==> Next(s, e).schedules[index] == TakenBy(s, e, index).value.next)
  {
    if e.Timed() {
      TickWf(s, e.now);
      if Tick(s, e.now).lease.None? {
        EndedTick(s, e.now);
        LeaseIsGone(s, e);
      } else {
        HeldTick(s, e.now);
        hide Tick, Respond, Judge, TakeSlot, Handle;
        if e.Received? {
          HandleEffect(s, e.request, e.peer, e.now);
          RenewLeavesStreams(Tick(s, e.now), e.request, e.peer, e.now);
        }
      }
    }
  }

  /** A lease that the clock has ended cannot be back under its epoch. */
  lemma LeaseIsGone(s: State, e: Event)
    requires Wf(s) && e.Timed() && Tick(s, e.now).lease.None? && s.lease.Some?
    requires if s.epoch == U32_MAX then Tick(s, e.now).exhausted else Tick(s, e.now).epoch == s.epoch + 1
    ensures Next(s, e).lease.None? || Next(s, e).epoch != s.epoch
  {
    TickWf(s, e.now);
    hide Tick, Respond, Judge, Handle, Poll;
    if e.Received? {
      HandleEffect(s, e.request, e.peer, e.now);
      RespondEffect(Tick(s, e.now), e.request, e.peer, e.now);
    } else if e.Polled? {
      PollEffect(s, e.index, e.now);
    }
  }

  // ---------------------------------------------------------------------
  // Streams keep to their grid.

  /** A stream that has passed n slots of a grid, none of which lies ahead of the clock. */
  predicate OnGrid(s: State, index: nat, period: nat, start: nat, n: nat)
    requires period > 0 && index < 2
  {
    var row := s.schedules[index];
    row.period == period && Grid.Position(SlotsOf(row), start, n) && start <= s.lastTime &&
    n <= Grid.Elapsed(period, start, s.lastTime)
  }

  /** Configuring puts each stream at the start of its grid, exactly when the first boundary fits the clock. */
  lemma StreamsStartOnGrid(s: State, r: Envelope, peer: Peer, now: u64, index: nat)
    requires Wf(s) && s.lastTime == now && Judge(s, r, peer) == Result(APPLIED) && r.kind == Some(2) && index < 2
    ensures r.configure.Some? && Complete(r.configure.value)
    ensures var period := [r.configure.value.statusPeriodUs.value, r.configure.value.healthPeriodUs.value][index];
            period > 0 ==> (OnGrid(Respond(s, r, peer, now).0, index, period, now, 0) <==> now + period <= U64_MAX)
  {
    assert Respond(s, r, peer, now).0 == Perform(s, r, peer, now);
  }

  lemma PollOnGrid(row: Publication, start: nat, n: nat, now: u64)
    requires row.period > 0 && Grid.Position(SlotsOf(row), start, n) && start <= now
    requires n <= Grid.Elapsed(row.period, start, now)
    requires start + (Grid.Elapsed(row.period, start, now) + 1) * row.period <= U64_MAX
    ensures now < row.due ==> Grid.Elapsed(row.period, start, now) == n
    ensures row.due <= now ==>
              var (slot, m) := (TakeSlot(row, now), Grid.Elapsed(row.period, start, now));
              slot.next.period == row.period && Grid.Position(SlotsOf(slot.next), start, m) && m > n &&
              slot.skipped == m - 1 - n && slot.sequence == Wrap32(m - 1)
  {
    Grid.OnePoll(SlotsOf(row), start, n, now);
    if row.due <= now {
      Grid.BothSchedulesAgree(row, now);
    }
  }

  function Advance(slot: Option<Slot>): nat {
    match slot case Some(taken) => 1 + taken.skipped case None => 0
  }

  /** One event of a run that keeps its lease. */
  lemma EventOnGrid(s: State, e: Event, index: nat, period: nat, start: nat, n: nat)
    requires Wf(s) && index < 2 && period > 0 && OnGrid(s, index, period, start, n)
    requires s.lease.Some? && Next(s, e).lease.Some? && Next(s, e).epoch == s.epoch
    requires (e.Timed() ==> s.lastTime <= e.now) && BoundariesFit([e], index, period, start)
    ensures OnGrid(Next(s, e), index, period, start, n + Advance(TakenBy(s, e, index)))
    ensures Polls(e, index) ==>
              n + Advance(TakenBy(s, e, index)) == Grid.Elapsed(period, start, e.now) &&
              (TakenBy(s, e, index).Some? ==>
                 Step(s, e).1.Some? &&
                 Step(s, e).1.value.sequence == Some(Wrap32(Grid.Elapsed(period, start, e.now) - 1)))
  {
    hide Next, Step, Tick, TakeSlot, Grid.Elapsed, Grid.Position, Wf;
    StreamsAreIndependent(s, e, index);
    NextTime(s, e);
    if e.Timed() {
      Grid.ElapsedGrows(period, start, s.lastTime, e.now);
    }
    if Polls(e, index) {
      assert Polls([e][0], index);
      var row := s.schedules[index];
      PollOnGrid(row, start, n, e.now);
      PolledSample(s, e, index);
    }
  }

  lemma NextTime(s: State, e: Event)
    requires Wf(s)
    ensures Next(s, e).lastTime == if e.Timed() then e.now else s.lastTime
  {
    if e.Received? {
      HandleWf(s, e.request, e.peer, e.now);
      hide Handle;
    } else if e.Polled? {
      PollWf(s, e.index, e.now);
      hide Poll;
    } else if e.Ticked? {
      TickWf(s, e.now);
      hide Tick;
    }
  }

  lemma PolledSample(s: State, e: Event, index: nat)
    requires Wf(s) && Polls(e, index) && index < 2
    ensures TakenBy(s, e, index).Some? ==>
              Step(s, e).1.Some? && Step(s, e).1.value.sequence == Some(TakenBy(s, e, index).value.sequence)
    ensures TakenBy(s, e, index).None? <==> Step(s, e).1.None?
    ensures Wf(Tick(s, e.now)) &&
            (TakenBy(s, e, index).None? && Tick(s, e.now).lease.Some? && Tick(s, e.now).schedules[index].period > 0 ==>
               e.now < Tick(s, e.now).schedules[index].due)
  {
    TickWf(s, e.now);
    hide Tick, TakeSlot;
  }

  /** Over any run that keeps its lease, whatever else happens in it: published plus skipped slots are the slots that
      had elapsed when the stream was last polled, and the deadline stays on the grid. */
  lemma {:induction false} StreamsAreExact(s: State, es: seq<Event>, index: nat, period: nat, start: nat, n: nat)
    requires Wf(s) && index < 2 && period > 0 && OnGrid(s, index, period, start, n)
    requires Keeps(s, es) && Monotone(s.lastTime, es) && BoundariesFit(es, index, period, start)
    ensures OnGrid(Run(s, es), index, period, start, n + Published(s, es, index) + Skipped(s, es, index))
    ensures match LastPoll(es, index)
            case Some(now) =>
              start <= now &&
              n + Published(s, es, index) + Skipped(s, es, index) == Grid.Elapsed(period, start, now)
            case None => Published(s, es, index) + Skipped(s, es, index) == 0
    decreases |es|
  {
    hide Wf, Next, OnGrid, TakenBy;
    if es != [] {
      var e, rest := es[0], es[1..];
      assert BoundariesFit([e], index, period, start) by {
        assert [e][0] == es[0];
      }
      assert BoundariesFit(rest, index, period, start) by {
        assert forall i :: 0 <= i < |rest| ==> rest[i] == es[i + 1];
      }
      EventOnGrid(s, e, index, period, start, n);
      NextTime(s, e);
      var m := n + Advance(TakenBy(s, e, index));
      StreamsAreExact(Next(s, e), rest, index, period, start, m);
      OnGridStarted(s, index, period, start, n);
      OnlyPollsTake(s, e, index);
    }
  }

  lemma OnlyPollsTake(s: State, e: Event, index: nat)
    requires Wf(s) && index < 2
    ensures TakenBy(s, e, index).Some? ==> Polls(e, index)
  {
  }

  lemma OnGridStarted(s: State, index: nat, period: nat, start: nat, n: nat)
    requires index < 2 && period > 0 && OnGrid(s, index, period, start, n)
    ensures start <= s.lastTime
  {
  }
}
