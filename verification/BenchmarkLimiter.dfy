/** The reply limiter from below: what it owes its callers, and exactly when it may withhold a reply. */
module BenchmarkLimiter {
  import opened Machine
  import opened Messages
  import opened Benchmark
  import opened BenchmarkSpec
  import opened BenchmarkRuns
  import opened BenchmarkReplies

  /** A request whose reply costs a token. */
  predicate Limited(s: State, e: Event)
    requires Wf(s)
  {
    e.Received? && Wf(Tick(s, e.now)) && Judge(Tick(s, e.now), e.request, e.peer) !in {Ignored, Probe}
  }

  function Asked(s: State, es: seq<Event>): nat
    requires Wf(s)
    decreases |es|
  {
    if es == [] then 0 else (if Limited(s, es[0]) then 1 else 0) + Asked(Next(s, es[0]), es[1..])
  }

  /** Whole refill periods from one time to another. */
  function Periods(from: nat, to: nat): nat {
    SaturatingSub(to, from) / 100_000
  }

  // ---------------------------------------------------------------------
  // Ticks.

  lemma PeriodsAdd(a: nat, b: nat, c: nat)
    requires a <= b <= c && (b - a) % 100_000 == 0
    ensures Periods(a, c) == Periods(a, b) + Periods(b, c) && b == a + 100_000 * Periods(a, b)
  {
  }

  /** A tick credits every whole period since the last credit, up to a full bucket of ten. */
  lemma TickCredits(s: State, now: u64)
    requires Wf(s) && s.lastTime <= now
    ensures Wf(Tick(s, now))
    ensures Tick(s, now).tokens == Min(10, s.tokens + Periods(s.tokenTime, now))
    ensures Tick(s, now).tokenTime == s.tokenTime + 100_000 * Periods(s.tokenTime, now)
    ensures s.tokenTime <= now && s.tokenTime <= Tick(s, now).tokenTime <= now
    ensures Periods(Tick(s, now).tokenTime, now) == 0
  {
    TickWf(s, now);
    DivisionBounds(now - s.tokenTime, TOKEN_PERIOD);
  }

  /** Waiting for k periods is good for k tokens. */
  lemma WaitingIsCredited(s: State, now: u64, k: nat)
    requires Wf(s) && s.lastTime + k * 100_000 <= now && k <= 10
    ensures Tick(s, now).tokens >= k
  {
    TickCredits(s, now);
    hide Tick;
    assert Periods(s.tokenTime, now) >= k;
  }

  // ---------------------------------------------------------------------
  // Single events.

  /** A limited reply is sent exactly if a token is at hand, and it is the reply that the request deserves. */
  lemma LimitedIsAnswered(s: State, e: Event)
    requires Wf(s) && Limited(s, e)
    ensures Step(s, e).1.Some? <==> Tick(s, e.now).tokens > 0
    ensures Step(s, e).1.Some? ==> Step(s, e).1 == Respond(Tick(s, e.now), e.request, e.peer, e.now).1
    ensures Replied(s, e) == if Tick(s, e.now).tokens > 0 then 1 else 0
  {
    ReplyKinds(Tick(s, e.now), e.request, e.peer, e.now);
    RespondKeepsTokens(Tick(s, e.now), e.request, e.peer, e.now);
    hide Tick, Judge, Respond;
  }

  lemma RespondSuppressesNothing(s: State, r: Envelope, peer: Peer, now: u64)
    requires Wf(s)
    ensures Wf(Tick(s, now)) && Tick(s, now).suppressed == s.suppressed
    ensures Respond(s, r, peer, now).0.suppressed == s.suppressed
  {
    TickWf(s, now);
  }

  /** Every reply withheld is counted, and nothing else is. */
  lemma WithheldIsCounted(s: State, e: Event)
    requires Wf(s) && Limited(s, e)
    ensures Next(s, e).suppressed ==
            if Step(s, e).1.Some? || s.suppressed == 0xFFFF_FFFF then s.suppressed else s.suppressed + 1
  {
    var (r, peer, now) := (e.request, e.peer, e.now);
    RespondSuppressesNothing(s, r, peer, now);
    RespondSuppressesNothing(Tick(s, now), r, peer, now);
    ReplyKinds(Tick(s, now), r, peer, now);
    RespondKeepsTokens(Tick(s, now), r, peer, now);
    hide Wf, Tick, Judge, Respond;
  }

  /** An echo is never withheld, and costs nothing. */
  lemma EchoesAreNotLimited(s: State, e: Event)
    requires Wf(s) && e.Received? && Wf(Tick(s, e.now)) && Judge(Tick(s, e.now), e.request, e.peer) == Probe
    ensures Step(s, e).1.Some? && Step(s, e).1 == Respond(Tick(s, e.now), e.request, e.peer, e.now).1
    ensures Step(s, e).1.value.kind == Some(15) && Next(s, e).tokens == Tick(s, e.now).tokens
  {
    ReplyKinds(Tick(s, e.now), e.request, e.peer, e.now);
    RespondKeepsTokens(Tick(s, e.now), e.request, e.peer, e.now);
    hide Tick, Judge, Respond;
  }

  lemma OthersCostNothing(s: State, e: Event)
    requires Wf(s) && !Limited(s, e)
    ensures Replied(s, e) == 0
  {
    if e.Received? {
      TickWf(s, e.now);
      ReplyKinds(Tick(s, e.now), e.request, e.peer, e.now);
      hide Tick, Judge, Respond;
    }
  }

  lemma RepliedIfAsked(s: State, e: Event)
    requires Wf(s)
    ensures Replied(s, e) <= if Limited(s, e) then 1 else 0
    ensures Limited(s, e) && Replied(s, e) == 0 ==> Tick(s, e.now).tokens == 0
  {
    hide Tick, Replied, Step;
    if Limited(s, e) {
      LimitedIsAnswered(s, e);
    } else {
      OthersCostNothing(s, e);
    }
  }

  // ---------------------------------------------------------------------
  // What is owed.

  lemma TimedSteps(s: State, e: Event)
    requires Wf(s) && e.Timed() && s.lastTime <= e.now
    ensures Next(s, e).tokens == Tick(s, e.now).tokens - Replied(s, e)
    ensures Next(s, e).tokenTime == Tick(s, e.now).tokenTime && Next(s, e).lastTime == e.now
  {
    TokensSpent(s, e);
    TickWf(s, e.now);
  }

  lemma UntimedSteps(s: State, e: Event)
    requires Wf(s) && !e.Timed()
    ensures Replied(s, e) == 0 && !Limited(s, e)
    ensures (Next(s, e).tokens, Next(s, e).tokenTime, Next(s, e).lastTime) == (s.tokens, s.tokenTime, s.lastTime)
  {
    TokensSpent(s, e);
  }

  /** No reply is withheld while there are tokens for all of them. */
  lemma {:induction false} TokensAreHonoured(s: State, es: seq<Event>)
    requires Wf(s) && Monotone(s.lastTime, es) && Asked(s, es) <= s.tokens
    ensures Replies(s, es) == Asked(s, es)
    decreases |es|
  {
    if es != [] {
      var e := es[0];
      hide Wf, Next, Replied, Tick, Limited;
      RepliedIfAsked(s, e);
      if e.Timed() {
        TimedSteps(s, e);
        TickCredits(s, e.now);
      } else {
        UntimedSteps(s, e);
      }
      TokensAreHonoured(Next(s, e), es[1..]);
    }
  }

  /** Whoever asks at most k times, k periods after the service last looked at its clock, is always answered. */
  lemma {:induction false} CreditIsHonoured(s: State, es: seq<Event>, k: nat)
    requires Wf(s) && Monotone(s.lastTime, es) && Asked(s, es) <= k <= 10
    requires forall i :: 0 <= i < |es| && es[i].Timed() ==> s.lastTime + k * 100_000 <= es[i].now
    ensures Replies(s, es) == Asked(s, es)
    decreases |es|
  {
    if es != [] {
      var e, rest := es[0], es[1..];
      hide Wf, Next, Replied, Tick, Limited;
      RepliedIfAsked(s, e);
      if e.Timed() {
        TimedSteps(s, e);
        WaitingIsCredited(s, e.now, k);
        TokensAreHonoured(Next(s, e), rest);
      } else {
        UntimedSteps(s, e);
        assert forall i :: 0 <= i < |rest| ==> rest[i] == es[i + 1];
        CreditIsHonoured(Next(s, e), rest, k);
      }
    }
  }

  /** A fresh service owes ten replies at once. */
  lemma FreshServiceOwesTen(device: Text32, boot: Text16, format: Format, crc: CrcMode, now: u64, es: seq<Event>)
    ensures var s := Initial(device, boot, format, crc, now);
            Wf(s) && (Monotone(now, es) && Asked(s, es) <= 10 ==> Replies(s, es) == Asked(s, es))
  {
    var s := Initial(device, boot, format, crc, now);
    if Monotone(now, es) && Asked(s, es) <= 10 {
      TokensAreHonoured(s, es);
    }
  }

  // ---------------------------------------------------------------------
  // Exactly when a reply is withheld.

  /** Since the start of the run, replies have used up the tokens of the start and every period since. */
  predicate AllSpent(s: State, es: seq<Event>, now: u64)
    requires Wf(s)
  {
    Replies(s, es) == s.tokens + Periods(s.tokenTime, now)
  }

  /** Since some reading of the clock that filled the bucket, replies have used up all ten and every period since. */
  predicate SpentSinceFull(s: State, es: seq<Event>, now: u64)
    requires Wf(s)
    decreases |es|
  {
    es != [] &&
    ((es[0].Timed() && Tick(s, es[0].now).tokens == 10 &&
      Replies(s, es) == 10 + Periods(Tick(s, es[0].now).tokenTime, now)) ||
     SpentSinceFull(Next(s, es[0]), es[1..], now))
  }

  lemma Leftover(replies: nat, start: nat, from: nat, tokens: nat, to: nat, now: nat)
    requires from <= to <= now && (to - from) % 100_000 == 0
    requires replies + tokens <= start + (to - from) / 100_000 && replies == start + Periods(from, now)
    ensures tokens == 0 && Periods(to, now) == 0
  {
    PeriodsAdd(from, to, now);
  }

  lemma SpentLeavesNothing(s: State, es: seq<Event>, now: u64)
    requires Wf(s) && Monotone(s.lastTime, es) && Run(s, es).lastTime <= now && AllSpent(s, es, now)
    ensures Tick(Run(s, es), now).tokens == 0
  {
    hide Wf, Tick, Run, Replies, Periods, Monotone;
    var m := Run(s, es);
    RunIsPaid(s, es);
    TickCredits(m, now);
    Leftover(Replies(s, es), s.tokens, s.tokenTime, m.tokens, m.tokenTime, now);
  }

  lemma {:induction false} FullThenSpentLeavesNothing(s: State, es: seq<Event>, now: u64)
    requires Wf(s) && Monotone(s.lastTime, es) && Run(s, es).lastTime <= now && SpentSinceFull(s, es, now)
    ensures Tick(Run(s, es), now).tokens == 0
    decreases |es|
  {
    var e, rest := es[0], es[1..];
    hide Wf, Next, Replied, Tick;
    if e.Timed() {
      TimedSteps(s, e);
    } else {
      UntimedSteps(s, e);
    }
    if SpentSinceFull(Next(s, e), rest, now) {
      FullThenSpentLeavesNothing(Next(s, e), rest, now);
    } else {
      SpentLeavesNothing(Next(s, e), rest, now);
    }
  }

  lemma {:induction false} NothingLeftIsSpent(s: State, es: seq<Event>, now: u64)
    requires Wf(s) && Monotone(s.lastTime, es) && Run(s, es).lastTime <= now && Tick(Run(s, es), now).tokens == 0
    ensures AllSpent(s, es, now) || SpentSinceFull(s, es, now)
    decreases |es|
  {
    hide Wf, Next, Replied, Tick;
    if es == [] {
      TickCredits(s, now);
    } else {
      var e, rest := es[0], es[1..];
      if e.Timed() {
        TimedSteps(s, e);
        RunIsPaid(Next(s, e), rest);
        TickCredits(s, e.now);
        NothingLeftIsSpent(Next(s, e), rest, now);
        PeriodsAdd(s.tokenTime, Tick(s, e.now).tokenTime, now);
        PeriodsAdd(s.tokenTime, Tick(s, e.now).tokenTime, e.now);
      } else {
        UntimedSteps(s, e);
        NothingLeftIsSpent(Next(s, e), rest, now);
      }
    }
  }

  /**
   * After any run on a forward clock, the reply to a limited request is withheld if and only if every token and
   * every period has been spent on replies: since the start, or since some reading that found the bucket full.
   */
  lemma WithheldExactlyWhenSpent(s: State, es: seq<Event>, e: Event)
    requires Wf(s) && Monotone(s.lastTime, es) && Limited(Run(s, es), e) && Run(s, es).lastTime <= e.now
    ensures Step(Run(s, es), e).1.None? <==> AllSpent(s, es, e.now) || SpentSinceFull(s, es, e.now)
  {
    LimitedIsAnswered(Run(s, es), e);
    hide Step, Tick, AllSpent, SpentSinceFull, Limited, Wf;
    if Tick(Run(s, es), e.now).tokens == 0 {
      NothingLeftIsSpent(s, es, e.now);
    }
    if AllSpent(s, es, e.now) {
      SpentLeavesNothing(s, es, e.now);
    }
    if SpentSinceFull(s, es, e.now) {
      FullThenSpentLeavesNothing(s, es, e.now);
    }
  }
}
