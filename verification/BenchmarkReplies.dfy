/** Everything the service sends is well formed, and the reply limiter bounds how often it answers. */
module BenchmarkReplies {
  import opened Machine
  import opened Messages
  import opened Benchmark
  import opened BenchmarkSpec
  import opened BenchmarkRuns
  import Messaging

  /** Identity given at construction that makes every reply well formed. */
  predicate Identified(s: State) {
    DeviceId(Some(s.device)) && Nonce(Some(s.boot))
  }

  lemma PatternIsPayload(length: u32, seed: u32, token: u32)
    requires length <= 512
    ensures var p := Pattern(length, seed, token);
            p.Some? && |p.value| == length && forall i :: 0 <= i < length ==> IsAlphanumeric(p.value[i])
  {
    var p := Pattern(length, seed, token).value;
    forall i | 0 <= i < length
      ensures IsAlphanumeric(p[i])
    {
      assert p[i] == Symbol((seed % 62 + token % 62 + i) % 62);
    }
  }

  lemma DiscoveryIsValid(s: State, session: Text16, id: u32, now: u64, available: bool)
    requires Wf(s) && Identified(s) && Nonce(Some(session)) && id > 0
    ensures Validate(Base(s, session, 11, now).(limits := Some(Advertised(s.format, s.crc, available)),
                                                requestId := Some(id)), s.format, s.crc).Ok?
  {
    CountSingle(Bodies(Base(s, session, 11, now).(limits := Some(Advertised(s.format, s.crc, available)),
                                                  requestId := Some(id))), 5);
  }

  lemma EchoIsValid(s: State, session: Text16, id: u32, payload: Text512, now: u64)
    requires Wf(s) && Identified(s) && Nonce(Some(session)) && id > 0
    requires forall i :: 0 <= i < |payload| ==> IsAlphanumeric(payload[i])
    ensures Validate(Base(s, session, 15, now).(payload := Some(payload), probeResponse := Some(Empty.Empty),
                                                requestId := Some(id)), s.format, s.crc).Ok?
  {
    CountSingle(Bodies(Base(s, session, 15, now).(payload := Some(payload), probeResponse := Some(Empty.Empty),
                                                  requestId := Some(id))), 7);
  }

  lemma ResultIsValid(s: State, session: Text16, epoch: u32, id: u32, code: i32, remaining: u32, now: u64)
    requires Wf(s) && Identified(s) && Nonce(Some(session)) && id > 0 && epoch > 0
    requires 1 <= code <= 10 && remaining <= 30000
    ensures Validate(Base(s, session, 12, now).(runEpoch := Some(epoch), requestId := Some(id),
                                                result := Some(ControlResult(Some(code), Some(remaining)))),
                     s.format, s.crc).Ok?
  {
    CountSingle(Bodies(Base(s, session, 12, now).(runEpoch := Some(epoch), requestId := Some(id),
                                                  result := Some(ControlResult(Some(code), Some(remaining))))), 6);
  }

  /** However often a lease is renewed, it never reports more than thirty seconds. */
  lemma RemainingIsBounded(s: State, r: Envelope, peer: Peer, now: u64)
    requires Wf(s) && s.lastTime == now && r.sessionId.Some?
    ensures Remaining(s, r, peer, now) <= 30000
  {
  }

  lemma SampleIsValid(s: State, index: nat, sequence: u32, now: u64)
    requires Wf(s) && Identified(s) && s.lease.Some? && index < 2
    ensures Validate(Sample(s, index, sequence, now), s.format, s.crc).Ok?
  {
    var m := Sample(s, index, sequence, now);
    var c := s.lease.value.configuration;
    PatternIsPayload(c.payloadBytes.value, c.patternSeed.value, sequence);
    CountSingle(Bodies(m), 8 + index);
    CountSingle(Messaging.Bodies(AsPublication(m)), 4 + index);
  }

  lemma RespondIsValid(s: State, r: Envelope, peer: Peer, now: u64)
    requires Wf(s) && Identified(s) && s.lastTime == now
    ensures var (after, reply) := Respond(s, r, peer, now);
            reply.Some? ==> Validate(reply.value, s.format, s.crc).Ok?
  {
    RespondEffect(s, r, peer, now);
    RespondWf(s, r, peer, now);
    var after := Respond(s, r, peer, now).0;
    var session := r.sessionId;
    hide Validate, Base, Perform;
    match Judge(s, r, peer)
    case Ignored =>
    case Discovery => DiscoveryIsValid(s, session.value, r.requestId.value, now, !s.Active() && !s.exhausted);
    case Probe =>
      var c := s.lease.value.configuration;
      PatternIsPayload(c.payloadBytes.value, c.patternSeed.value, r.requestId.value);
      EchoIsValid(s, session.value, r.requestId.value, r.payload.value, now);
    case Result(code) =>
      RemainingIsBounded(after, r, peer, now);
      var remaining := Remaining(after, r, peer, now);
      ResultIsValid(after, session.value, r.runEpoch.value, r.requestId.value, code, remaining, now);
  }

  lemma StepIsValid(s: State, e: Event)
    requires Wf(s) && Identified(s)
    ensures Identified(Next(s, e)) && CoreOf(Next(s, e)).format == s.format && CoreOf(Next(s, e)).crc == s.crc
    ensures Step(s, e).1.Some? ==> Validate(Step(s, e).1.value, s.format, s.crc).Ok?
  {
    hide Validate, Tick, Respond, Judge, TakeSlot, Sample;
    match e
    case Ticked(now) => TickKeepsIdentity(s, now);
    case Received(request, peer, now) =>
      TickKeepsIdentity(s, now);
      HandleEffect(s, request, peer, now);
      RespondEffect(Tick(s, now), request, peer, now);
      RespondIsValid(Tick(s, now), request, peer, now);
    case Polled(index, now) =>
      TickKeepsIdentity(s, now);
      if Due(Tick(s, now), index, now) {
        var t := Tick(s, now);
        var slot := TakeSlot(t.schedules[index], now);
        var after := Publish(t, index, now).0;
        PollWf(s, index, now);
        SampleIsValid(after, index, slot.sequence, now);
      }
    case _ =>
  }

  lemma TickKeepsIdentity(s: State, now: u64)
    requires Wf(s)
    ensures var t := Tick(s, now);
            Wf(t) && t.lastTime == now && (t.device, t.boot, t.format, t.crc) == (s.device, s.boot, s.format, s.crc)
  {
  }

  /** Every reply and publication of a run, in order. */
  function Sent(s: State, es: seq<Event>): seq<Envelope>
    requires Wf(s)
    decreases |es|
  {
    if es == [] then []
    else (match Step(s, es[0]).1 case None => [] case Some(m) => [m]) + Sent(Next(s, es[0]), es[1..])
  }

  lemma {:induction false} EveryMessageIsValid(s: State, es: seq<Event>, j: nat)
    requires Wf(s) && Identified(s) && j < |Sent(s, es)|
    ensures Validate(Sent(s, es)[j], s.format, s.crc).Ok?
    decreases |es|
  {
    hide Validate, Step, Next, Identified, Wf;
    StepIsValid(s, es[0]);
    var first := |Sent(s, es)| - |Sent(Next(s, es[0]), es[1..])|;
    if j >= first {
      EveryMessageIsValid(Next(s, es[0]), es[1..], j - first);
    }
  }

  // ---------------------------------------------------------------------
  // The reply limiter.

  /** Whether handling this event sends a discovery or control reply. */
  function Replied(s: State, e: Event): nat
    requires Wf(s)
  {
    var answer := Step(s, e).1;
    if e.Received? && answer.Some? && answer.value.kind in {Some(11), Some(12)} then 1 else 0
  }

  function Replies(s: State, es: seq<Event>): nat
    requires Wf(s)
    decreases |es|
  {
    if es == [] then 0 else Replied(s, es[0]) + Replies(Next(s, es[0]), es[1..])
  }

  /** Replies are paid from the tokens at hand and from whole refill periods since the last refill. */
  predicate Paid(s: State, t: State, replies: nat) {
    s.tokenTime <= t.tokenTime && replies + t.tokens <= s.tokens + (t.tokenTime - s.tokenTime) / TOKEN_PERIOD &&
    (t.tokenTime - s.tokenTime) % TOKEN_PERIOD == 0
  }

  lemma TickIsPaid(s: State, now: u64)
    requires Wf(s) && s.lastTime <= now
    ensures Paid(s, Tick(s, now), 0) && Tick(s, now).tokens <= 10 && now - Tick(s, now).tokenTime < TOKEN_PERIOD
  {
  }

  /** Only the limiter spends tokens, one for every reply it lets through. */
  lemma TokensSpent(s: State, e: Event)
    requires Wf(s) && (e.Timed() ==> s.lastTime <= e.now)
    ensures var before := if e.Timed() then Tick(s, e.now) else s;
            Next(s, e).tokens == before.tokens - Replied(s, e) && Next(s, e).tokenTime == before.tokenTime &&
            Next(s, e).lastTime == before.lastTime
  {
    hide Tick, Judge, TakeSlot;
    if e.Received? {
      TickWf(s, e.now);
      RespondKeepsTokens(Tick(s, e.now), e.request, e.peer, e.now);
      ReplyKinds(Tick(s, e.now), e.request, e.peer, e.now);
      hide Respond;
    }
  }

  lemma ReplyKinds(s: State, r: Envelope, peer: Peer, now: u64)
    requires Wf(s)
    ensures var (v, reply) := (Judge(s, r, peer), Respond(s, r, peer, now).1);
            (v == Ignored <==> reply.None?) && (v == Probe ==> reply.value.kind == Some(15)) &&
            (v !in {Ignored, Probe} ==> reply.value.kind in {Some(11), Some(12)})
  {
    hide Judge, Perform;
  }

  lemma RespondKeepsTokens(s: State, r: Envelope, peer: Peer, now: u64)
    requires Wf(s)
    ensures var after := Respond(s, r, peer, now).0;
            (after.tokens, after.tokenTime, after.lastTime) == (s.tokens, s.tokenTime, s.lastTime)
  {
  }

  lemma StepIsPaid(s: State, e: Event)
    requires Wf(s) && (e.Timed() ==> s.lastTime <= e.now)
    ensures Paid(s, Next(s, e), Replied(s, e)) && s.lastTime <= Next(s, e).lastTime
  {
    TokensSpent(s, e);
    if e.Timed() {
      TickIsPaid(s, e.now);
      TickWf(s, e.now);
    }
  }

  lemma PaidAdds(s: State, m: State, t: State, first: nat, rest: nat)
    requires Paid(s, m, first) && Paid(m, t, rest)
    ensures Paid(s, t, first + rest)
  {
  }

  lemma StepTime(s: State, e: Event)
    requires Wf(s) && (e.Timed() ==> s.lastTime <= e.now)
    ensures Next(s, e).lastTime == if e.Timed() then e.now else s.lastTime
  {
    TokensSpent(s, e);
    if e.Timed() {
      TickWf(s, e.now);
    }
  }

  lemma {:induction false} RunIsPaid(s: State, es: seq<Event>)
    requires Wf(s) && Monotone(s.lastTime, es)
    ensures Paid(s, Run(s, es), Replies(s, es)) && s.lastTime <= Run(s, es).lastTime
    decreases |es|
  {
    if es != [] {
      hide Wf, Step, Next, Replied, Tick, Paid;
      StepIsPaid(s, es[0]);
      StepTime(s, es[0]);
      RunIsPaid(Next(s, es[0]), es[1..]);
      PaidAdds(s, Next(s, es[0]), Run(s, es), Replied(s, es[0]), Replies(Next(s, es[0]), es[1..]));
    }
  }

  /** In any window of W microseconds starting at a timed event, at most 10 + ceil(W / 100000) replies. */
  lemma ReplyRateIsBounded(s: State, es: seq<Event>)
    requires Wf(s) && Monotone(s.lastTime, es) && es != [] && es[0].Timed()
    ensures Replies(s, es) <= 10 + (Run(s, es).lastTime - es[0].now + (TOKEN_PERIOD - 1)) / TOKEN_PERIOD
  {
    TickIsPaid(s, es[0].now);
    TickWf(s, es[0].now);
    TokensSpent(s, es[0]);
    RunIsPaid(Next(s, es[0]), es[1..]);
    hide Next, Replied, Tick;
    var start, end := Next(s, es[0]), Run(s, es);
    assert end.tokenTime <= end.lastTime;
    assert end.tokenTime - start.tokenTime < end.lastTime - es[0].now + TOKEN_PERIOD;
  }
}
