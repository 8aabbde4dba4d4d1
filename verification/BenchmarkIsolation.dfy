/** What cannot influence a run: refused requests, other peers, replays, polling, and the reply limiter. */
module BenchmarkIsolation {
  import opened Machine
  import opened Messages
  import opened Benchmark
  import opened BenchmarkSpec
  import opened BenchmarkRuns
  import opened BenchmarkTicking

  // ---------------------------------------------------------------------
  // Refusals, and requests from anyone but the owner.

  /** Ignored requests, discovery, probes, replays and codes 4 to 10 leave the run as the clock alone would. */
  lemma RefusalIsAtomic(s: State, r: Envelope, peer: Peer, now: u64)
    requires Wf(s)
    ensures Wf(Tick(s, now))
    ensures !Effective(Judge(Tick(s, now), r, peer)) ==> CoreOf(Handle(s, r, peer, now).0) == CoreOf(Tick(s, now))
  {
    hide Handle, Respond, Judge, Tick;
    HandleEffect(s, r, peer, now);
    RespondEffect(Tick(s, now), r, peer, now);
  }

  lemma OnlyTheOwnerIsEffective(s: State, r: Envelope, peer: Peer)
    requires Wf(s) && s.lease.Some? && (r.sessionId.None? || !s.Owner(peer, r.sessionId.value))
    ensures !Effective(Judge(s, r, peer)) && Judge(s, r, peer) != Probe
  {
  }

  // ---------------------------------------------------------------------
  // Replays.

  /** The stored kind, id and configuration stand for the whole message. */
  lemma ControlIdentifiesMessage(s: State, a: Envelope, b: Envelope)
    requires Addressed(s, a) && 2 <= a.kind.value <= 4
    requires Addressed(s, b) && 2 <= b.kind.value <= 4
    requires a.sessionId == b.sessionId && a.runEpoch == b.runEpoch
    ensures ControlOf(a) == ControlOf(b) <==> a == b
  {
    OneBody(a);
    OneBody(b);
  }

  /** A validated control carries its own body and nothing else. */
  lemma OneBody(m: Envelope)
    requires m.kind.Some? && 2 <= m.kind.value <= 4 && Count(Bodies(m)) == 1 && BodyMatchesKind(m, m.kind.value)
    ensures m.capabilities.None? && m.probe.None? && m.limits.None? && m.result.None? && m.probeResponse.None? &&
            m.status.None? && m.health.None?
    ensures m.kind == Some(2) <==> m.configure.Some?
    ensures m.kind == Some(3) <==> m.renew == Some(Empty.Empty)
    ensures m.kind == Some(4) <==> m.stop == Some(Empty.Empty)
    ensures m.renew.Some? ==> m.renew == Some(Empty.Empty)
    ensures m.stop.Some? ==> m.stop == Some(Empty.Empty)
  {
    var flags := Bodies(m);
    forall i, j | 0 <= i < j < |flags| && flags[i] && flags[j]
      ensures false
    {
      TwoFlags(flags, i, j);
    }
    assert flags[1] == m.configure.Some? && flags[2] == m.renew.Some? && flags[3] == m.stop.Some?;
    assert flags[0] == m.capabilities.Some? && flags[4] == m.probe.Some? && flags[5] == m.limits.Some?;
    assert flags[6] == m.result.Some? && flags[7] == m.probeResponse.Some?;
    assert flags[8] == m.status.Some? && flags[9] == m.health.Some?;
    if m.renew.Some? {
      assert m.renew.value == Empty.Empty;
    }
    if m.stop.Some? {
      assert m.stop.value == Empty.Empty;
    }
  }

  /** Code 2 is exactly the owner repeating the last applied control, and it changes nothing at all. */
  lemma DuplicateMeansReplay(s: State, r: Envelope, peer: Peer, now: u64)
    requires Wf(s)
    ensures Judge(s, r, peer) == Result(DUPLICATE) <==>
            Addressed(s, r) && 2 <= r.kind.value <= 4 && r.runEpoch == Some(s.epoch) &&
            s.Owner(peer, r.sessionId.value) && s.lease.value.last == ControlOf(r)
    ensures Judge(s, r, peer) == Result(DUPLICATE) ==> Respond(s, r, peer, now).0 == s
  {
  }

  lemma ResultIsAddressed(s: State, r: Envelope, peer: Peer)
    requires Wf(s) && Judge(s, r, peer).Result?
    ensures Addressed(s, r) && 2 <= r.kind.value <= 4
    ensures Judge(s, r, peer).code !in {STALE_RUN} ==> r.runEpoch == Some(s.epoch)
  {
  }

  /** Replaying an applied configure or renew while the lease lasts: code 2, and only the clock has moved. */
  lemma ReplayIsInert(s: State, r: Envelope, peer: Peer, now: u64, later: u64)
    requires Wf(s)
    requires Wf(Tick(s, now)) && Judge(Tick(s, now), r, peer) == Result(APPLIED)
    requires var after := Handle(s, r, peer, now).0; now <= later < after.lease.value.expiry
    ensures var after := Handle(s, r, peer, now).0;
            Wf(after) && Wf(Tick(after, later)) && CoreOf(Tick(after, later)) == CoreOf(after) &&
            Judge(Tick(after, later), r, peer) == Result(DUPLICATE) &&
            Respond(Tick(after, later), r, peer, later).0 == Tick(after, later)
  {
    hide Handle, Respond, Judge;
    var after := Handle(s, r, peer, now).0;
    HandleWf(s, r, peer, now);
    HandleEffect(s, r, peer, now);
    RespondEffect(Tick(s, now), r, peer, now);
    ResultIsAddressed(Tick(s, now), r, peer);
    TickWf(after, later);
    DuplicateMeansReplay(Tick(after, later), r, peer, later);
  }

  // ---------------------------------------------------------------------
  // Erasing from a run everything that has no effect on it.

  /** Only applied controls, polls of a stream and link loss matter to a run. */
  predicate Matters(s: State, e: Event)
    requires Wf(s)
  {
    e.Polled? || e.LinkLost? ||
    (e.Received? && Wf(Tick(s, e.now)) && Effective(Judge(Tick(s, e.now), e.request, e.peer)))
  }

  function Erase(s: State, es: seq<Event>): seq<Event>
    requires Wf(s)
    decreases |es|
  {
    if es == [] then []
    else (if Matters(s, es[0]) then [es[0]] else []) + Erase(Next(s, es[0]), es[1..])
  }

  function EndCore(c: Core): Core {
    if c.lease.None? then c
    else c.(lease := None, schedules := STOPPED, exhausted := c.exhausted || c.epoch == U32_MAX,
            epoch := if c.epoch == U32_MAX then U32_MAX else c.epoch + 1)
  }

  /** What the clock alone does to a run. */
  function At(c: Core, now: u64): Core {
    if c.lease.Some? && now >= c.lease.value.expiry then EndCore(c) else c
  }

  lemma TickCore(s: State, now: u64)
    requires s.lastTime <= now
    ensures CoreOf(Tick(s, now)) == At(CoreOf(s), now)
  {
  }

  lemma AtTwice(c: Core, a: u64, b: u64)
    requires a <= b
    ensures At(At(c, a), b) == At(c, b) && At(EndCore(c), a) == EndCore(c) && EndCore(At(c, a)) == EndCore(c)
  {
  }

  /** t has missed nothing that matters: from s's last reading on, the clock takes both to the same run. */
  predicate Abreast(s: State, t: State) {
    Wf(s) && Wf(t) && t.lastTime <= s.lastTime && At(CoreOf(s), s.lastTime) == At(CoreOf(t), s.lastTime)
  }

  lemma AbreastLater(s: State, t: State, now: u64)
    requires Abreast(s, t) && s.lastTime <= now
    ensures CoreOf(Tick(s, now)) == CoreOf(Tick(t, now)) == At(CoreOf(t), now)
  {
    TickCore(s, now);
    TickCore(t, now);
    AtTwice(CoreOf(s), s.lastTime, now);
    AtTwice(CoreOf(t), s.lastTime, now);
  }

  lemma RespondDependsOnCore(s: State, t: State, r: Envelope, peer: Peer, now: u64)
    requires Wf(s) && Wf(t) && CoreOf(s) == CoreOf(t)
    ensures Judge(s, r, peer) == Judge(t, r, peer)
    ensures CoreOf(Respond(s, r, peer, now).0) == CoreOf(Respond(t, r, peer, now).0)
  {
    JudgeDependsOnCore(s, t, r, peer);
    if Effective(Judge(s, r, peer)) {
      hide CoreOf;
      PerformDependsOnCore(s, t, r, peer, now);
    } else {
      hide Respond, Judge;
      RespondEffect(s, r, peer, now);
      RespondEffect(t, r, peer, now);
    }
  }

  lemma JudgeDependsOnCore(s: State, t: State, r: Envelope, peer: Peer)
    requires Wf(s) && Wf(t) && CoreOf(s) == CoreOf(t)
    ensures Judge(s, r, peer) == Judge(t, r, peer)
  {
  }

  lemma PerformDependsOnCore(s: State, t: State, r: Envelope, peer: Peer, now: u64)
    requires Wf(s) && Wf(t) && CoreOf(s) == CoreOf(t) && Effective(Judge(s, r, peer)) && Effective(Judge(t, r, peer))
    ensures CoreOf(Perform(s, r, peer, now)) == CoreOf(Perform(t, r, peer, now))
  {
  }

  lemma PublishDependsOnCore(s: State, t: State, index: nat, now: u64)
    requires Wf(s) && Wf(t) && CoreOf(s) == CoreOf(t)
    ensures CoreOf(Publish(s, index, now).0) == CoreOf(Publish(t, index, now).0)
  {
  }

  lemma ErasedEvent(s: State, t: State, e: Event)
    requires Abreast(s, t) && !Matters(s, e) && (e.Timed() ==> s.lastTime <= e.now)
    ensures Abreast(Next(s, e), t)
    ensures Next(s, e).lastTime == if e.Timed() then e.now else s.lastTime
  {
    hide Handle, Judge, Tick, Respond;
    if e.Timed() {
      AbreastLater(s, t, e.now);
      TickWf(s, e.now);
      TickCore(s, e.now);
      AtTwice(CoreOf(s), e.now, e.now);
      AtTwice(CoreOf(t), e.now, e.now);
      if e.Received? {
        RefusalIsAtomic(s, e.request, e.peer, e.now);
        HandleWf(s, e.request, e.peer, e.now);
      }
    }
  }

  lemma KeptEvent(s: State, t: State, e: Event)
    requires Abreast(s, t) && Matters(s, e) && (e.Timed() ==> s.lastTime <= e.now)
    ensures Wf(t) && Abreast(Next(s, e), Next(t, e))
    ensures if e.Timed() then Next(s, e).lastTime == e.now else Next(s, e).lastTime == s.lastTime
  {
    hide Handle, Judge, Tick, Respond, Publish;
    if e.LinkLost? {
      AtTwice(CoreOf(s), s.lastTime, s.lastTime);
      AtTwice(CoreOf(t), s.lastTime, s.lastTime);
      assert CoreOf(End(s)) == EndCore(CoreOf(s)) && CoreOf(End(t)) == EndCore(CoreOf(t));
    } else {
      AbreastLater(s, t, e.now);
      TickWf(s, e.now);
      TickWf(t, e.now);
      if e.Received? {
        HandleEffect(s, e.request, e.peer, e.now);
        HandleEffect(t, e.request, e.peer, e.now);
        HandleWf(s, e.request, e.peer, e.now);
        HandleWf(t, e.request, e.peer, e.now);
        RespondDependsOnCore(Tick(s, e.now), Tick(t, e.now), e.request, e.peer, e.now);
      } else {
        PollWf(s, e.index, e.now);
        PollWf(t, e.index, e.now);
        PublishDependsOnCore(Tick(s, e.now), Tick(t, e.now), e.index, e.now);
      }
    }
  }

  /** The whole-run theorem: erasing every event that was refused, replayed, only counted or only polled the clock
      leaves the run in the same place at every later time. */
  lemma {:induction false} ErasureIsUnobservable(s: State, t: State, es: seq<Event>, end: u64)
    requires Wf(s) && Wf(t) && Abreast(s, t) && Monotone(s.lastTime, es) && Run(s, es).lastTime <= end
    ensures CoreOf(Tick(Run(s, es), end)) == CoreOf(Tick(Run(t, Erase(s, es)), end))
    decreases |es|
  {
    hide Abreast, Matters, Next, Tick;
    if es == [] {
      AbreastLater(s, t, end);
    } else {
      var e, rest := es[0], es[1..];
      if Matters(s, e) {
        KeptEvent(s, t, e);
        assert Erase(s, es)[0] == e && Erase(s, es)[1..] == Erase(Next(s, e), rest);
        ErasureIsUnobservable(Next(s, e), Next(t, e), rest, end);
      } else {
        ErasedEvent(s, t, e);
        assert Erase(s, es) == Erase(Next(s, e), rest);
        ErasureIsUnobservable(Next(s, e), t, rest, end);
      }
    }
  }

  // ---------------------------------------------------------------------
  // The same with a clock that may step back: then a refused event is felt, but only as a tick.

  /** Every event that does not matter, reduced to its reading of the clock. */
  function Idle(s: State, es: seq<Event>): seq<Event>
    requires Wf(s)
    decreases |es|
  {
    if es == [] then []
    else
      (if Matters(s, es[0]) then [es[0]] else if es[0].Timed() then [Ticked(es[0].now)] else []) +
      Idle(Next(s, es[0]), es[1..])
  }

  predicate InStep(s: State, t: State) {
    Wf(s) && Wf(t) && CoreOf(s) == CoreOf(t) && s.lastTime == t.lastTime
  }

  lemma TickInStep(s: State, t: State, now: u64)
    requires InStep(s, t)
    ensures InStep(Tick(s, now), Tick(t, now))
  {
    TickWf(s, now);
    TickWf(t, now);
  }

  lemma EventInStep(s: State, t: State, e: Event)
    requires InStep(s, t)
    ensures Matters(s, e) ==> InStep(Next(s, e), Next(t, e))
    ensures !Matters(s, e) && e.Timed() ==> InStep(Next(s, e), Next(t, Ticked(e.now)))
    ensures !Matters(s, e) && !e.Timed() ==> InStep(Next(s, e), t)
  {
    if e.Received? {
      ReceivedInStep(s, t, e.request, e.peer, e.now);
      hide Handle, Tick, Judge;
    } else if e.Polled? {
      TickInStep(s, t, e.now);
      PollWf(s, e.index, e.now);
      PollWf(t, e.index, e.now);
      hide Tick, Publish;
      PublishDependsOnCore(Tick(s, e.now), Tick(t, e.now), e.index, e.now);
    } else if e.Ticked? {
      TickInStep(s, t, e.now);
      hide Tick;
    }
  }

  lemma ReceivedInStep(s: State, t: State, r: Envelope, peer: Peer, now: u64)
    requires InStep(s, t)
    ensures Wf(Tick(s, now)) && InStep(Tick(s, now), Tick(t, now))
    ensures Effective(Judge(Tick(s, now), r, peer)) ==> InStep(Handle(s, r, peer, now).0, Handle(t, r, peer, now).0)
    ensures !Effective(Judge(Tick(s, now), r, peer)) ==> InStep(Handle(s, r, peer, now).0, Tick(t, now))
  {
    TickInStep(s, t, now);
    TickWf(t, now);
    HandleWf(s, r, peer, now);
    HandleWf(t, r, peer, now);
    hide Handle, Respond, Judge, Tick;
    if Effective(Judge(Tick(s, now), r, peer)) {
      HandleEffect(s, r, peer, now);
      HandleEffect(t, r, peer, now);
      RespondDependsOnCore(Tick(s, now), Tick(t, now), r, peer, now);
    } else {
      RefusalIsAtomic(s, r, peer, now);
    }
  }

  /** Whatever the clock does, every refused, replayed or foreign event acts on the run as its tick alone does. */
  lemma {:induction false} RefusalsActLikeTicks(s: State, t: State, es: seq<Event>)
    requires InStep(s, t)
    ensures InStep(Run(s, es), Run(t, Idle(s, es)))
    decreases |es|
  {
    hide InStep, Matters, Next;
    InStepIsWf(s, t);
    if es != [] {
      var e, rest := es[0], es[1..];
      EventInStep(s, t, e);
      var idle := if Matters(s, e) then [e] else if e.Timed() then [Ticked(e.now)] else [];
      assert Idle(s, es) == idle + Idle(Next(s, e), rest);
      RefusalsActLikeTicks(Next(s, e), if idle == [] then t else Next(t, idle[0]), rest);
      if idle != [] {
        assert Idle(s, es)[0] == idle[0] && Idle(s, es)[1..] == Idle(Next(s, e), rest);
      } else {
        assert Idle(s, es) == Idle(Next(s, e), rest);
      }
    }
  }

  lemma InStepIsWf(s: State, t: State)
    requires InStep(s, t)
    ensures Wf(s) && Wf(t)
  {
  }

  /** At a clock that steps back even a refused event ends the run. */
  lemma BackwardClockIsFelt(s: State, e: Event)
    requires Wf(s) && !Matters(s, e) && e.Timed() && e.now < s.lastTime
    ensures CoreOf(Next(s, e)) == EndCore(CoreOf(s))
    ensures CoreOf(Next(s, e)) == CoreOf(s) <==> s.lease.None?
  {
    TickWf(s, e.now);
    assert CoreOf(Tick(s, e.now)) == EndCore(CoreOf(s));
    if s.lease.Some? {
      RollbackEndsTheRun(s, e.now);
    }
    hide Handle, Tick, Judge;
    if e.Received? {
      RefusalIsAtomic(s, e.request, e.peer, e.now);
    }
  }

  // ---------------------------------------------------------------------
  // When erasing is unobservable on any clock.

  /** Readings of the clock that never step back, from the first to the last. */
  predicate Forward(from: u64, times: seq<u64>, to: u64)
    decreases |times|
  {
    if times == [] then from <= to else from <= times[0] && Forward(times[0], times[1..], to)
  }

  /** Readings leave no trace at the next one: there is no run, the next one ends it anyway, or none steps back. */
  predicate Fade(t: State, times: seq<u64>, next: u64) {
    t.lease.None? || next < t.lastTime || t.lease.value.expiry <= next || Forward(t.lastTime, times, next)
  }

  lemma {:induction false} ForwardRises(from: u64, times: seq<u64>, to: u64)
    requires Forward(from, times, to)
    ensures from <= to
    decreases |times|
  {
    if times != [] {
      ForwardRises(times[0], times[1..], to);
    }
  }

  lemma TickBranches(t: State, now: u64)
    requires Wf(t)
    ensures Wf(Tick(t, now)) && Tick(t, now).lastTime == now
    ensures CoreOf(Tick(t, now)) ==
              if t.lease.Some? && (now < t.lastTime || t.lease.value.expiry <= now) then EndCore(CoreOf(t))
              else CoreOf(t)
  {
    TickWf(t, now);
  }

  /** A run outlives a series of readings exactly if they never step back and end before it expires. */
  lemma {:induction false} AfterTicks(t: State, times: seq<u64>, next: u64)
    requires Wf(t)
    ensures CoreOf(Tick(TickAll(t, times), next)) ==
              if t.lease.None? || (Forward(t.lastTime, times, next) && next < t.lease.value.expiry) then CoreOf(t)
              else EndCore(CoreOf(t))
    decreases |times|
  {
    hide Tick, Wf;
    if times == [] {
      TickBranches(t, next);
    } else {
      TickBranches(t, times[0]);
      AfterTicks(Tick(t, times[0]), times[1..], next);
      if Forward(times[0], times[1..], next) {
        ForwardRises(times[0], times[1..], next);
      }
    }
  }

  lemma ReadingsFade(t: State, times: seq<u64>, next: u64)
    requires Wf(t)
    ensures CoreOf(Tick(TickAll(t, times), next)) == CoreOf(Tick(t, next)) <==> Fade(t, times, next)
  {
    AfterTicks(t, times, next);
    TickBranches(t, next);
    if Forward(t.lastTime, times, next) {
      ForwardRises(t.lastTime, times, next);
    }
    hide Tick, TickAll, Forward;
  }

  /** Whether one event without effect can be left out is seen at the next reading of the clock. */
  lemma ErasableExactlyIfItFades(s: State, e: Event, next: u64)
    requires Wf(s) && !Matters(s, e) && e.Timed()
    ensures CoreOf(Tick(Next(s, e), next)) == CoreOf(Tick(s, next)) <==>
            s.lease.None? || next < s.lastTime || s.lease.value.expiry <= next || s.lastTime <= e.now <= next
  {
    EventInStep(s, s, e);
    TickInStep(Next(s, e), Next(s, Ticked(e.now)), next);
    ReadingsFade(s, [e.now], next);
    assert TickAll(s, [e.now]) == Tick(s, e.now);
    assert Forward(s.lastTime, [e.now], next) <==> s.lastTime <= e.now <= next;
    hide Tick, Matters, TickAll, Forward;
  }

  /** Two runs are in the same place at every reading of the clock that is kept, and at the end. */
  predicate Agree(s: State, t: State, es: seq<Event>, end: u64)
    requires Wf(s) && Wf(t)
    decreases |es|
  {
    if es == [] then CoreOf(Tick(s, end)) == CoreOf(Tick(t, end))
    else
      var e, rest := es[0], es[1..];
      if !Matters(s, e) then Agree(Next(s, e), t, rest, end)
      else
        (e.Timed() ==> CoreOf(Tick(s, e.now)) == CoreOf(Tick(t, e.now))) && Agree(Next(s, e), Next(t, e), rest, end)
  }

  /** At every kept reading of the clock, and at the end, the readings erased since the last one fade. */
  predicate AllFade(s: State, t: State, times: seq<u64>, es: seq<Event>, end: u64)
    requires Wf(s) && Wf(t)
    decreases |es|
  {
    if es == [] then Fade(t, times, end)
    else
      var e, rest := es[0], es[1..];
      if !Matters(s, e) then AllFade(Next(s, e), t, if e.Timed() then times + [e.now] else times, rest, end)
      else
        (e.Timed() ==> Fade(t, times, e.now)) &&
        AllFade(Next(s, e), Next(t, e), if e.Timed() then [] else times, rest, end)
  }

  lemma {:induction false} TickAllWf(t: State, times: seq<u64>)
    requires Wf(t)
    ensures Wf(TickAll(t, times))
    decreases |times|
  {
    if times != [] {
      TickWf(t, times[0]);
      TickAllWf(Tick(t, times[0]), times[1..]);
    }
  }

  lemma {:induction false} TickAllJoins(t: State, times: seq<u64>, now: u64)
    requires Wf(t)
    ensures TickAll(t, times + [now]) == Tick(TickAll(t, times), now)
    decreases |times|
  {
    if times == [] {
      assert TickAll(t, [now]) == TickAll(Tick(t, now), []);
    } else {
      TickWf(t, times[0]);
      assert (times + [now])[1..] == times[1..] + [now];
      TickAllJoins(Tick(t, times[0]), times[1..], now);
    }
  }

  /** Losing the link ends the run, whichever readings came before. */
  lemma LossAfterTicks(t: State, times: seq<u64>)
    requires Wf(t)
    ensures Wf(TickAll(t, times)) && Wf(End(t)) && InStep(End(TickAll(t, times)), TickAll(End(t), times))
  {
    TickAllWf(t, times);
    assert Wf(End(t)) && Wf(End(TickAll(t, times)));
    TickAllWf(End(t), times);
    TicksEndOrLeave(t, times);
    TicksEndOrLeave(End(t), times);
    hide TickAll;
  }

  lemma {:induction false} TicksEndOrLeave(t: State, times: seq<u64>)
    requires Wf(t)
    ensures CoreOf(TickAll(t, times)) in {CoreOf(t), EndCore(CoreOf(t))}
    ensures TickAll(t, times).lastTime == if times == [] then t.lastTime else times[|times| - 1]
    decreases |times|
  {
    if times != [] {
      TickBranches(t, times[0]);
      hide Tick, Wf;
      TicksEndOrLeave(Tick(t, times[0]), times[1..]);
    }
  }

  lemma KeptInStep(s: State, t: State, times: seq<u64>, e: Event)
    requires Wf(t) && InStep(s, TickAll(t, times)) && Matters(s, e)
    ensures e.Timed() ==>
              (CoreOf(Tick(s, e.now)) == CoreOf(Tick(t, e.now)) <==> Fade(t, times, e.now)) &&
              (Fade(t, times, e.now) ==> InStep(Next(s, e), Next(t, e)))
    ensures !e.Timed() ==> InStep(Next(s, e), TickAll(Next(t, e), times))
  {
    if e.Timed() {
      TickInStep(s, TickAll(t, times), e.now);
      ReadingsFade(t, times, e.now);
      TickWf(s, e.now);
      TickWf(t, e.now);
      hide Tick, TickAll, Fade;
      if Fade(t, times, e.now) {
        assert InStep(Tick(s, e.now), Tick(t, e.now));
        KeptAfterTick(s, t, e);
      }
    } else {
      LossAfterTicks(t, times);
      EventInStep(s, TickAll(t, times), e);
      hide Tick, TickAll, End;
    }
  }

  /** What an event with effect does to a run depends on the state only through its tick. */
  lemma KeptAfterTick(s: State, t: State, e: Event)
    requires Wf(s) && Wf(t) && Matters(s, e) && e.Timed() && InStep(Tick(s, e.now), Tick(t, e.now))
    ensures InStep(Next(s, e), Next(t, e))
  {
    hide Handle, Judge, Tick, Respond, Publish;
    if e.Received? {
      HandleEffect(s, e.request, e.peer, e.now);
      HandleEffect(t, e.request, e.peer, e.now);
      HandleWf(s, e.request, e.peer, e.now);
      HandleWf(t, e.request, e.peer, e.now);
      RespondDependsOnCore(Tick(s, e.now), Tick(t, e.now), e.request, e.peer, e.now);
    } else {
      PollWf(s, e.index, e.now);
      PollWf(t, e.index, e.now);
      PublishDependsOnCore(Tick(s, e.now), Tick(t, e.now), e.index, e.now);
    }
  }

  /**
   * The whole-run theorem for every clock: the run with and the run without the events that have no effect are in
   * the same place at every kept reading of the clock and at the end, exactly if what was erased fades by then.
   */
  lemma {:induction false} ErasureAgreesExactlyIfItFades(
    s: State, t: State, times: seq<u64>, es: seq<Event>, end: u64)
    requires Wf(t) && InStep(s, TickAll(t, times))
    ensures Wf(s) && (Agree(s, t, es, end) <==> AllFade(s, t, times, es, end))
    ensures AllFade(s, t, times, es, end) ==> CoreOf(Tick(Run(s, es), end)) == CoreOf(Tick(Run(t, Erase(s, es)), end))
    decreases |es|
  {
    InStepIsWf(s, TickAll(t, times));
    if es == [] {
      TickInStep(s, TickAll(t, times), end);
      ReadingsFade(t, times, end);
      hide Tick, TickAll, Fade;
    } else {
      var e, rest := es[0], es[1..];
      hide Tick, TickAll, Fade, Matters, Next, InStep;
      if !Matters(s, e) {
        EventInStep(s, TickAll(t, times), e);
        assert Erase(s, es) == Erase(Next(s, e), rest);
        if e.Timed() {
          TickAllJoins(t, times, e.now);
          NextOfTick(TickAll(t, times), e.now);
          ErasureAgreesExactlyIfItFades(Next(s, e), t, times + [e.now], rest, end);
        } else {
          ErasureAgreesExactlyIfItFades(Next(s, e), t, times, rest, end);
        }
      } else {
        KeptInStep(s, t, times, e);
        assert Erase(s, es)[0] == e && Erase(s, es)[1..] == Erase(Next(s, e), rest);
        if !e.Timed() {
          ErasureAgreesExactlyIfItFades(Next(s, e), Next(t, e), times, rest, end);
        } else if Fade(t, times, e.now) {
          assert TickAll(Next(t, e), []) == Next(t, e) by { NoTicks(Next(t, e)); }
          ErasureAgreesExactlyIfItFades(Next(s, e), Next(t, e), [], rest, end);
        }
      }
    }
  }

  lemma NextOfTick(t: State, now: u64)
    requires Wf(t)
    ensures Next(t, Ticked(now)) == Tick(t, now)
  {
    hide Tick;
  }

  lemma NoTicks(t: State)
    ensures TickAll(t, []) == t
  {
  }

  lemma TickThenPoll(s: State, a: u64, b: u64)
    requires Wf(s)
    ensures Wf(Tick(s, a)) && Tick(s, a).lastTime == a
    ensures var es := [Ticked(a), Polled(0, b)];
            Erase(s, es) == [es[1]] && Run(s, es) == Next(Tick(s, a), es[1]) && Run(s, [es[1]]) == Next(s, es[1])
  {
    var e, f := Ticked(a), Polled(0, b);
    TickWf(s, a);
    NextOfTick(s, a);
    assert [e, f][1..] == [f] && [f][1..] == [];
    hide Tick, Next, Wf;
    assert Erase(Tick(s, a), [f]) == [f] + Erase(Next(Tick(s, a), f), []);
    assert Run(Tick(s, a), [f]) == Run(Next(Tick(s, a), f), []);
    assert Run(s, [f]) == Run(Next(s, f), []);
  }

  lemma PolledLease(s: State, now: u64)
    requires Wf(s)
    ensures Next(s, Polled(0, now)).lease == Tick(s, now).lease
  {
    PollEffect(s, 0, now);
    hide Tick, Poll;
  }

  /** Erasing a reading that itself steps forward can show, when the next one steps back. */
  lemma ErasedTickIsMissed(s: State)
    requires Wf(s) && s.lease.Some? && s.lastTime + 1000 < s.lease.value.expiry
    ensures var es := [Ticked(s.lastTime + 200), Polled(0, s.lastTime + 100)];
            Erase(s, es) == [Polled(0, s.lastTime + 100)] &&
            Run(s, es).lease.None? && Run(s, Erase(s, es)).lease.Some?
  {
    var a, b := s.lastTime + 200, s.lastTime + 100;
    TickThenPoll(s, a, b);
    TickBranches(s, a);
    TickBranches(s, b);
    TickBranches(Tick(s, a), b);
    PolledLease(s, b);
    PolledLease(Tick(s, a), b);
    hide Tick, Next, Wf, Erase, Run;
  }

  /** Stepping back to a reading twice is stepping back to it once. */
  lemma RollbackTwice(s: State, now: u64)
    requires Wf(s) && now < s.lastTime
    ensures Wf(Tick(s, now)) && InStep(Tick(Tick(s, now), now), Tick(s, now))
  {
    TickBranches(s, now);
    TickBranches(Tick(s, now), now);
    hide Tick, Wf;
  }

  lemma PollAfterTick(s: State, t: State, now: u64)
    requires Wf(s) && Wf(t) && InStep(Tick(s, now), Tick(t, now))
    ensures CoreOf(Next(s, Polled(0, now))) == CoreOf(Next(t, Polled(0, now)))
  {
    hide Tick, Next, Wf;
    KeptAfterTick(s, t, Polled(0, now));
  }

  /** And erasing one that steps back need not show, when the next one steps back as well. */
  lemma ErasedRollbackIsNotMissed(s: State)
    requires Wf(s) && s.lease.Some? && 0 < s.lastTime
    ensures var es := [Ticked(s.lastTime - 1), Polled(0, s.lastTime - 1)];
            Erase(s, es) == [Polled(0, s.lastTime - 1)] && CoreOf(Run(s, es)) == CoreOf(Run(s, Erase(s, es)))
  {
    var a := s.lastTime - 1;
    TickThenPoll(s, a, a);
    hide Tick, Next, Wf, Erase, Run, InStep, CoreOf;
    RollbackTwice(s, a);
    PollAfterTick(Tick(s, a), s, a);
  }

  // ---------------------------------------------------------------------
  // The reply limiter.

  function Unlimited(s: State): State {
    s.(tokens := 0, tokenTime := 0, suppressed := 0)
  }

  lemma TickUnlimited(s: State, t: State, now: u64)
    requires Unlimited(s) == Unlimited(t)
    ensures Unlimited(Tick(s, now)) == Unlimited(Tick(t, now))
  {
    hide Refill;
    RefillUnlimited(Expire((if now < s.lastTime then End(s).(tokenTime := now) else s).(lastTime := now), now), now);
    RefillUnlimited(Expire((if now < t.lastTime then End(t).(tokenTime := now) else t).(lastTime := now), now), now);
  }

  lemma RefillUnlimited(s: State, now: u64)
    ensures Unlimited(Refill(s, now)) == Unlimited(s)
  {
  }

  lemma PerformUnlimited(s: State, t: State, r: Envelope, peer: Peer, now: u64)
    requires Wf(s) && Wf(t) && Unlimited(s) == Unlimited(t) && Addressed(s, r) && 2 <= r.kind.value <= 4
    requires Assess(s, r, peer) in {APPLIED, ENDED}
    ensures Assess(t, r, peer) == Assess(s, r, peer)
    ensures Unlimited(Perform(s, r, peer, now)) == Unlimited(Perform(t, r, peer, now))
  {
  }

  lemma RespondUnlimited(s: State, t: State, r: Envelope, peer: Peer, now: u64)
    requires Wf(s) && Wf(t) && Unlimited(s) == Unlimited(t)
    ensures Unlimited(Respond(s, r, peer, now).0) == Unlimited(Respond(t, r, peer, now).0)
    ensures Respond(s, r, peer, now).1 == Respond(t, r, peer, now).1
  {
    JudgeDependsOnCore(s, t, r, peer);
    if Effective(Judge(s, r, peer)) {
      PerformUnlimited(s, t, r, peer, now);
      hide Perform, Remaining;
      RemainingUnlimited(Perform(s, r, peer, now), Perform(t, r, peer, now), r, peer, now);
    } else {
      hide Judge, Remaining;
      if r.sessionId.Some? {
        RemainingUnlimited(s, t, r, peer, now);
        RemainingUnlimited(Reject(s, false), Reject(t, false), r, peer, now);
      }
    }
  }

  lemma RemainingUnlimited(s: State, t: State, r: Envelope, peer: Peer, now: u64)
    requires Unlimited(s) == Unlimited(t) && r.sessionId.Some?
    ensures Remaining(s, r, peer, now) == Remaining(t, r, peer, now)
  {
  }

  /** Whatever its credit, the limiter changes no other part of the state, only whether a reply is sent. */
  lemma LimiterIsInert(s: State, t: State, e: Event)
    requires Wf(s) && Wf(t) && Unlimited(s) == Unlimited(t)
    ensures Unlimited(Next(s, e)) == Unlimited(Next(t, e))
    ensures Step(s, e).1 == Step(t, e).1 || Step(s, e).1.None? || Step(t, e).1.None?
  {
    hide Tick, Handle, Poll;
    match e
    case Ticked(now) => TickUnlimited(s, t, now);
    case Received(request, peer, now) => HandleUnlimited(s, t, request, peer, now);
    case Polled(index, now) => PollUnlimited(s, t, index, now);
    case _ =>
  }

  lemma HandleUnlimited(s: State, t: State, r: Envelope, peer: Peer, now: u64)
    requires Wf(s) && Wf(t) && Unlimited(s) == Unlimited(t)
    ensures var (a, b) := (Handle(s, r, peer, now), Handle(t, r, peer, now));
            Unlimited(a.0) == Unlimited(b.0) && (a.1 == b.1 || a.1.None? || b.1.None?)
  {
    hide Tick, Respond, Judge;
    TickWf(s, now);
    TickWf(t, now);
    TickUnlimited(s, t, now);
    RespondUnlimited(Tick(s, now), Tick(t, now), r, peer, now);
  }

  lemma PollUnlimited(s: State, t: State, index: nat, now: u64)
    requires Wf(s) && Wf(t) && Unlimited(s) == Unlimited(t)
    ensures Unlimited(Poll(s, index, now).0) == Unlimited(Poll(t, index, now).0)
    ensures Poll(s, index, now).1 == Poll(t, index, now).1
  {
    hide Tick, TakeSlot;
    TickWf(s, now);
    TickWf(t, now);
    TickUnlimited(s, t, now);
  }

  lemma {:induction false} LimiterIsInertOverRuns(s: State, t: State, es: seq<Event>)
    requires Wf(s) && Wf(t) && Unlimited(s) == Unlimited(t)
    ensures Unlimited(Run(s, es)) == Unlimited(Run(t, es)) && History(s, es) == History(t, es)
    decreases |es|
  {
    if es != [] {
      LimiterIsInert(s, t, es[0]);
      AppliedUnlimited(s, t, es[0]);
      hide Next, Applied;
      LimiterIsInertOverRuns(Next(s, es[0]), Next(t, es[0]), es[1..]);
    }
  }

  lemma AppliedUnlimited(s: State, t: State, e: Event)
    requires Wf(s) && Wf(t) && Unlimited(s) == Unlimited(t)
    ensures Applied(s, e) == Applied(t, e)
  {
    if e.Received? {
      hide Tick, Respond, Judge;
      TickWf(s, e.now);
      TickWf(t, e.now);
      TickUnlimited(s, t, e.now);
      RespondDependsOnCore(Tick(s, e.now), Tick(t, e.now), e.request, e.peer, e.now);
    }
  }
}
