/** Whole runs of the service: what was applied, in which epoch, by whom, and in which order. */
module BenchmarkRuns {
  import opened Machine
  import opened Messages
  import opened Benchmark
  import opened BenchmarkSpec

  /** Everything that can happen to a service, in any order and at any clock reading. */
  datatype Event =
    | Ticked(now: u64)
    | Received(request: Envelope, peer: Peer, now: u64)
    | Polled(index: nat, now: u64)
    | Undecodable(crc: bool)
    | LinkLost
    | Delivered(socket: nat, success: bool)
    | Dropped(amount: nat)
  {
    predicate Timed() {
      Ticked? || Received? || Polled?
    }
  }

  function Step(s: State, e: Event): (State, Option<Envelope>)
    requires Wf(s)
  {
    match e
    case Ticked(now) => (Tick(s, now), None)
    case Received(request, peer, now) => Handle(s, request, peer, now)
    case Polled(index, now) => Poll(s, index, now)
    case Undecodable(crc) => (Reject(s, crc), None)
    case LinkLost => (End(s), None)
    case Delivered(socket, success) =>
      (if socket < 3 then s.(counters := s.counters.Sent(socket, success)) else s, None)
    case Dropped(amount) => (s.(counters := s.counters.Skip(amount)), None)
  }

  function Next(s: State, e: Event): (t: State)
    requires Wf(s)
    ensures Wf(t)
  {
    StepWf(s, e);
    Step(s, e).0
  }

  lemma StepWf(s: State, e: Event)
    requires Wf(s)
    ensures Wf(Step(s, e).0)
  {
    match e
    case Ticked(now) => TickWf(s, now);
    case Received(request, peer, now) => HandleWf(s, request, peer, now);
    case Polled(index, now) => PollWf(s, index, now);
    case _ =>
  }

  function Run(s: State, es: seq<Event>): (t: State)
    requires Wf(s)
    ensures Wf(t)
    decreases |es|
  {
    if es == [] then s else Run(Next(s, es[0]), es[1..])
  }

  /** The clock never steps back along the run. */
  predicate Monotone(from: u64, es: seq<Event>)
    decreases |es|
  {
    es == [] ||
    if es[0].Timed() then from <= es[0].now && Monotone(es[0].now, es[1..]) else Monotone(from, es[1..])
  }

  /** The state a run is about, as opposed to counters and the reply limiter. */
  datatype Core = Core(
    device: Text32, boot: Text16, format: Format, crc: CrcMode,
    epoch: u32, exhausted: bool, lease: Option<Lease>, schedules: Schedules)

  function CoreOf(s: State): Core {
    Core(s.device, s.boot, s.format, s.crc, s.epoch, s.exhausted, s.lease, s.schedules)
  }

  predicate Effective(v: Verdict) {
    v in {Result(APPLIED), Result(ENDED)}
  }

  /** A request touches the run only if it is answered APPLIED or ENDED. */
  lemma RespondEffect(s: State, r: Envelope, peer: Peer, now: u64)
    requires Wf(s)
    ensures var (after, v) := (Respond(s, r, peer, now).0, Judge(s, r, peer));
            (!Effective(v) ==> CoreOf(after) == CoreOf(s)) &&
            (v == Result(APPLIED) ==>
               CoreOf(after) == CoreOf(s).(lease := after.lease, schedules := after.schedules) &&
               !s.exhausted && after.epoch == s.epoch && !after.exhausted && after.Owner(peer, r.sessionId.value) &&
               after.lease.value.last == ControlOf(r) && r.kind.value in {2, 3} &&
               (s.lease.None? <==> r.kind.value == 2)) &&
            (v == Result(ENDED) ==> CoreOf(after) == CoreOf(End(s)) && s.lease.Some? && r.kind.value == 4)
  {
    var v := Judge(s, r, peer);
    if v == Result(APPLIED) || v == Result(ENDED) {
      assert Respond(s, r, peer, now).0 == Perform(s, r, peer, now);
      EffectiveEffect(s, r, peer, now);
    } else {
      hide Judge, Perform;
    }
  }

  lemma EffectiveEffect(s: State, r: Envelope, peer: Peer, now: u64)
    requires Wf(s) && Judge(s, r, peer) in {Result(APPLIED), Result(ENDED)}
    ensures var (after, v) := (Perform(s, r, peer, now), Judge(s, r, peer));
            (v == Result(APPLIED) ==>
               CoreOf(after) == CoreOf(s).(lease := after.lease, schedules := after.schedules) &&
               !s.exhausted && after.epoch == s.epoch && !after.exhausted && after.Owner(peer, r.sessionId.value) &&
               after.lease.value.last == ControlOf(r) && r.kind.value in {2, 3} &&
               (s.lease.None? <==> r.kind.value == 2)) &&
            (v == Result(ENDED) ==> CoreOf(after) == CoreOf(End(s)) && s.lease.Some? && r.kind.value == 4)
  {
  }

  lemma HandleEffect(s: State, r: Envelope, peer: Peer, now: u64)
    requires Wf(s)
    ensures Wf(Tick(s, now))
    ensures CoreOf(Handle(s, r, peer, now).0) == CoreOf(Respond(Tick(s, now), r, peer, now).0)
  {
    hide Respond, Judge, Tick;
    TickWf(s, now);
  }

  lemma PollEffect(s: State, index: nat, now: u64)
    requires Wf(s)
    ensures CoreOf(Poll(s, index, now).0) == CoreOf(Tick(s, now)).(schedules := Poll(s, index, now).0.schedules)
  {
    hide Tick, TakeSlot;
    TickWf(s, now);
  }

  /** A control that took effect, or a probe that was answered. */
  datatype Entry = Entry(epoch: u32, peer: Peer, session: Text16, kind: i32, id: u32)

  function Applied(s: State, e: Event): Option<Entry>
    requires Wf(s)
  {
    if !e.Received? then None
    else
      TickWf(s, e.now);
      var t := Tick(s, e.now);
      var verdict := Judge(t, e.request, e.peer);
      if verdict in {Probe, Result(APPLIED), Result(ENDED)}
      then Some(Entry(t.epoch, e.peer, e.request.sessionId.value, e.request.kind.value, e.request.requestId.value))
      else None
  }

  function AppliedEntries(s: State, e: Event): seq<Entry>
    requires Wf(s)
  {
    match Applied(s, e)
    case None => []
    case Some(entry) => [entry]
  }

  function History(s: State, es: seq<Event>): seq<Entry>
    requires Wf(s)
    decreases |es|
  {
    if es == [] then [] else AppliedEntries(s, es[0]) + History(Next(s, es[0]), es[1..])
  }

  /** b may still be applied after state s. */
  predicate Possible(s: State, b: Entry) {
    !s.exhausted && s.epoch <= b.epoch &&
    (s.lease.Some? && s.epoch == b.epoch ==>
       s.Owner(b.peer, b.session) && b.kind != 2 && (b.kind != 5 ==> s.lease.value.last.id < b.id))
  }

  /** Entries of one epoch: one owner, one configure, nothing after the stop, increasing control ids. */
  predicate Follows(a: Entry, b: Entry) {
    a.epoch <= b.epoch &&
    (a.epoch == b.epoch ==>
       a.peer == b.peer && a.session == b.session && b.kind != 2 && a.kind != 4 &&
       (a.kind == 2 && b.kind != 5 ==> a.id < b.id) &&
       (a.kind != 5 && b.kind != 5 ==> a.id < b.id))
  }

  lemma PossibleBeforeTick(s: State, now: u64, b: Entry)
    requires Wf(s) && Possible(Tick(s, now), b)
    ensures Possible(s, b)
  {
  }

  lemma AppliedIsPossible(s: State, e: Event)
    requires Wf(s) && Applied(s, e).Some?
    ensures Possible(s, Applied(s, e).value)
  {
    TickWf(s, e.now);
    assert Possible(Tick(s, e.now), Applied(s, e).value);
    PossibleBeforeTick(s, e.now, Applied(s, e).value);
  }

  /** What a ticked state allows after answering a request, it already allowed before. */
  lemma PossibleBeforeRespond(s: State, r: Envelope, peer: Peer, now: u64, b: Entry)
    requires Wf(s) && s.lastTime == now && Possible(Respond(s, r, peer, now).0, b)
    ensures Possible(s, b)
  {
  }

  lemma PossibleForCore(s: State, t: State, b: Entry)
    requires s.epoch == t.epoch && s.exhausted == t.exhausted && s.lease == t.lease
    ensures Possible(s, b) == Possible(t, b)
  {
  }

  lemma PossibleBefore(s: State, e: Event, b: Entry)
    requires Wf(s) && Possible(Next(s, e), b)
    ensures Possible(s, b)
  {
    hide Tick, Handle, Poll;
    match e
    case Ticked(now) => PossibleBeforeTick(s, now, b);
    case Received(request, peer, now) => PossibleBeforeHandle(s, request, peer, now, b);
    case Polled(index, now) => PossibleBeforePoll(s, index, now, b);
    case _ =>
  }

  lemma PossibleBeforeHandle(s: State, r: Envelope, peer: Peer, now: u64, b: Entry)
    requires Wf(s) && Possible(Handle(s, r, peer, now).0, b)
    ensures Possible(s, b)
  {
    hide Tick, Handle, Possible, Respond;
    HandleEffect(s, r, peer, now);
    PossibleForCore(Handle(s, r, peer, now).0, Respond(Tick(s, now), r, peer, now).0, b);
    TickWf(s, now);
    PossibleBeforeRespond(Tick(s, now), r, peer, now, b);
    PossibleBeforeTick(s, now, b);
  }

  lemma PossibleBeforePoll(s: State, index: nat, now: u64, b: Entry)
    requires Wf(s) && Possible(Poll(s, index, now).0, b)
    ensures Possible(s, b)
  {
    hide Tick, Poll, Possible;
    PollEffect(s, index, now);
    PossibleForCore(Poll(s, index, now).0, Tick(s, now), b);
    PossibleBeforeTick(s, now, b);
  }

  lemma {:induction false} HistoryIsPossible(s: State, es: seq<Event>, j: nat)
    requires Wf(s) && j < |History(s, es)|
    ensures Possible(s, History(s, es)[j])
    decreases |es|
  {
    hide Wf, Next, Applied, Possible;
    var first := AppliedEntries(s, es[0]);
    if j < |first| {
      AppliedIsPossible(s, es[0]);
    } else {
      HistoryIsPossible(Next(s, es[0]), es[1..], j - |first|);
      PossibleBefore(s, es[0], History(s, es)[j]);
    }
  }

  lemma AppliedShape(s: State, e: Event)
    requires Wf(s) && Applied(s, e).Some?
    ensures Wf(Tick(s, e.now))
    ensures var (a, t, v) := (Applied(s, e).value, Tick(s, e.now), Judge(Tick(s, e.now), e.request, e.peer));
            (v == Probe <==> a.kind == 5) && (v == Result(ENDED) <==> a.kind == 4) &&
            (v != Result(APPLIED) ==> t.Owner(a.peer, a.session)) && !t.exhausted
  {
    hide Tick;
    TickWf(s, e.now);
  }

  lemma FollowsApplied(s: State, e: Event, b: Entry)
    requires Wf(s) && Applied(s, e).Some? && Possible(Next(s, e), b)
    ensures Follows(Applied(s, e).value, b)
  {
    hide Handle, Respond, Judge, Tick;
    HandleEffect(s, e.request, e.peer, e.now);
    RespondEffect(Tick(s, e.now), e.request, e.peer, e.now);
    AppliedShape(s, e);
  }

  lemma {:induction false} PairIsOrdered(s: State, es: seq<Event>, i: nat, j: nat)
    requires Wf(s)
    ensures i < j < |History(s, es)| ==> Follows(History(s, es)[i], History(s, es)[j])
    decreases |es|
  {
    hide Wf, Next, Applied, Possible, Follows;
    if i < j < |History(s, es)| {
      var first, rest := AppliedEntries(s, es[0]), Next(s, es[0]);
      if i < |first| {
        HistoryIsPossible(rest, es[1..], j - |first|);
        FollowsApplied(s, es[0], History(s, es)[j]);
      } else {
        PairIsOrdered(rest, es[1..], i - |first|, j - |first|);
      }
    }
  }

  /** One lease per epoch, one owner per epoch, and control ids that only grow, over any run. */
  lemma HistoryIsOrdered(s: State, es: seq<Event>)
    requires Wf(s)
    ensures forall i, j :: 0 <= i < j < |History(s, es)| ==> Follows(History(s, es)[i], History(s, es)[j])
  {
    hide Wf, History, Follows;
    forall i, j | 0 <= i < j < |History(s, es)|
      ensures Follows(History(s, es)[i], History(s, es)[j])
    {
      PairIsOrdered(s, es, i, j);
    }
  }

  lemma LeaseOrigin(s: State, e: Event)
    requires Wf(s) && Next(s, e).lease.Some?
    ensures var t := Next(s, e);
            (s.lease.Some? && s.epoch == t.epoch) ||
            (Applied(s, e).Some? && Applied(s, e).value.kind == 2 && Applied(s, e).value.epoch == t.epoch)
  {
    hide Handle, Respond, Judge, Poll;
    if e.Received? {
      HandleEffect(s, e.request, e.peer, e.now);
      RespondEffect(Tick(s, e.now), e.request, e.peer, e.now);
    } else if e.Polled? {
      PollEffect(s, e.index, e.now);
    }
  }

  lemma AppliedNeedsLease(s: State, e: Event)
    requires Wf(s) && Applied(s, e).Some? && Applied(s, e).value.kind != 2
    ensures s.lease.Some? && Applied(s, e).value.epoch == s.epoch
  {
    TickWf(s, e.now);
  }

  /** Nothing is applied in an epoch before its configure: starting without a lease, every entry has one. */
  lemma {:induction false} EveryEpochIsConfigured(s: State, es: seq<Event>, j: nat) returns (i: nat)
    requires Wf(s) && j < |History(s, es)|
    ensures i <= j
    ensures var h := History(s, es);
            (h[i].kind == 2 && h[i].epoch == h[j].epoch) || (s.lease.Some? && s.epoch == h[j].epoch)
    decreases |es|
  {
    hide Wf, Next, Applied;
    var first, rest := AppliedEntries(s, es[0]), Next(s, es[0]);
    i := j;
    if j < |first| {
      if first[0].kind != 2 {
        AppliedNeedsLease(s, es[0]);
      }
    } else {
      var k := EveryEpochIsConfigured(rest, es[1..], j - |first|);
      i := k + |first|;
      if rest.lease.Some? && rest.epoch == History(s, es)[j].epoch {
        LeaseOrigin(s, es[0]);
        i := if first != [] && first[0].kind == 2 && first[0].epoch == rest.epoch then 0 else i;
      }
    }
  }

  lemma EpochNeverDecreases(s: State, e: Event)
    requires Wf(s)
    ensures s.epoch <= Next(s, e).epoch && (s.exhausted ==> Next(s, e).exhausted)
  {
    hide Handle, Respond, Judge, Poll;
    if e.Received? {
      HandleEffect(s, e.request, e.peer, e.now);
      RespondEffect(Tick(s, e.now), e.request, e.peer, e.now);
    } else if e.Polled? {
      PollEffect(s, e.index, e.now);
    }
  }

  /** After the run of the last epoch has ended nothing is ever applied again. */
  lemma {:induction false} ExhaustionIsFinal(s: State, es: seq<Event>)
    requires Wf(s) && s.exhausted
    ensures History(s, es) == [] && Run(s, es).exhausted && Run(s, es).lease.None?
    decreases |es|
  {
    hide Next, Applied;
    if es != [] {
      EpochNeverDecreases(s, es[0]);
      if Applied(s, es[0]).Some? {
        AppliedIsPossible(s, es[0]);
      }
      ExhaustionIsFinal(Next(s, es[0]), es[1..]);
    }
  }

  lemma LastEpochExhausts(s: State)
    requires Wf(s) && s.lease.Some?
    ensures End(s).exhausted <==> s.epoch == U32_MAX
  {
  }

  lemma TickEndsTheLast(s: State, now: u64)
    requires Wf(s) && s.lease.Some? && s.epoch == U32_MAX
    ensures Wf(Tick(s, now)) && Tick(s, now).epoch == U32_MAX && (Tick(s, now).lease.None? ==> Tick(s, now).exhausted)
  {
    LastEpochExhausts(s);
    TickWf(s, now);
  }

  /** However the run of the last epoch ends, nothing is ever applied again and no lease is held again. */
  lemma LastRunIsFinal(s: State, e: Event, es: seq<Event>)
    requires Wf(s) && s.lease.Some? && s.epoch == U32_MAX && Next(s, e).lease.None?
    ensures History(Next(s, e), es) == [] && Run(Next(s, e), es).lease.None?
  {
    hide Handle, Respond, Judge, Poll, Tick;
    LastEpochExhausts(s);
    if e.Received? {
      TickEndsTheLast(s, e.now);
      var t := Tick(s, e.now);
      HandleEffect(s, e.request, e.peer, e.now);
      RespondEffect(t, e.request, e.peer, e.now);
      if t.lease.Some? {
        LastEpochExhausts(t);
      }
    } else if e.Polled? {
      TickEndsTheLast(s, e.now);
      PollEffect(s, e.index, e.now);
    } else if e.Ticked? {
      TickEndsTheLast(s, e.now);
    }
    ExhaustionIsFinal(Next(s, e), es);
  }
}
