/** The firmware service and the host reference answer every run of decoded input alike. */
module ReferenceSimulation {
  import opened Machine
  import opened Messages
  import opened Benchmark
  import opened BenchmarkSpec
  import GoldenConfigure
  import GoldenRequest
  import Isolation = BenchmarkIsolation
  import Reference = ReferenceSpec

  type Ref = Reference.Ref

  /** The socket whose failures the reference files under a message kind. */
  function Kind(socket: nat): i32
    requires socket < 3
  {
    if socket == 0 then 0 else 20 + socket
  }

  predicate SameCounters(c: Counters, p: Ref) {
    (c.received, c.rejected, c.sendErrors, c.skipped) ==
    (p.counters.received, p.counters.rejected, p.counters.sendErrors, p.counters.skipped) &&
    (forall i :: 0 <= i < 3 ==> (c.active[i] <==> Kind(i) in p.activeSendErrors)) &&
    p.activeSendErrors <= {0, 21, 22}
  }

  predicate SameRow(slot: Publication, p: Ref, kind: i32) {
    if slot.period == 0 then kind !in p.schedules
    else kind in p.schedules && p.schedules[kind] == Reference.Row(slot.due * 1000, slot.sequence, slot.period * 1000)
  }

  /** The reference remembers the whole message whose kind, id and configuration the firmware keeps. */
  predicate Remembers(s: State, l: Lease, m: Envelope) {
    Addressed(s, m) && 2 <= m.kind.value <= 4 && m.sessionId == Some(l.session) && m.runEpoch == Some(s.epoch) &&
    ControlOf(m) == l.last
  }

  predicate SameLease(s: State, p: Ref) {
    match s.lease
    case None => p.owner.None? && p.config.None? && p.lastControl.None?
    case Some(l) =>
      p.owner == Some((l.peer, l.session)) && p.config == Some(l.configuration) && p.expiry == l.expiry * 1000 &&
      p.lastControl.Some? && Remembers(s, l, p.lastControl.value)
  }

  predicate SameIdentity(s: State, p: Ref) {
    (s.device, s.boot, s.format, s.crc) == (p.device, p.boot, p.encoding, p.crc)
  }

  predicate Similar(s: State, p: Ref) {
    Wf(s) && Reference.Consistent(p) && SameIdentity(s, p) && p.start <= p.lastTime == s.lastTime * 1000 &&
    s.epoch == p.epoch && s.exhausted == p.exhausted && SameLease(s, p) && SameCounters(s.counters, p) &&
    SameRow(s.schedules[0], p, 21) && SameRow(s.schedules[1], p, 22)
  }

  /** Messages agree up to the time origin of uptime. */
  function Timeless(m: Envelope): Envelope {
    m.(uptimeMs := None)
  }

  predicate SameReply(a: Option<Envelope>, b: Option<Envelope>) {
    if a.Some? && b.Some? then Timeless(a.value) == Timeless(b.value) else a == b
  }

  // ---------------------------------------------------------------------
  // The one thing that can part them: a deadline that does not fit the firmware's 64-bit clock.

  /** Every deadline that an applied configure sets. */
  predicate DeadlinesFit(c: Configuration, now: u64) {
    Complete(c) && now + c.leaseMs.value * 1000 <= U64_MAX && now + c.statusPeriodUs.value <= U64_MAX &&
    now + c.healthPeriodUs.value <= U64_MAX
  }

  predicate RenewalFits(s: State, now: u64) {
    s.lease.Some? && s.lease.value.configuration.leaseMs.Some? &&
    now + s.lease.value.configuration.leaseMs.value * 1000 <= U64_MAX
  }

  predicate ControlFits(s: State, r: Envelope, peer: Peer, now: u64)
    requires Wf(s) && Addressed(s, r) && 2 <= r.kind.value <= 4
  {
    Assess(s, r, peer) == APPLIED ==>
      if r.kind == Some(2) then r.configure.Some? && DeadlinesFit(r.configure.value, now) else RenewalFits(s, now)
  }

  predicate RequestFits(s: State, r: Envelope, peer: Peer, now: u64)
    requires Wf(s)
  {
    Addressed(s, r) && 2 <= r.kind.value <= 4 ==> ControlFits(s, r, peer, now)
  }

  /** The boundary after the slot that is due. */
  predicate SlotFits(slot: Publication, now: u64) {
    slot.period > 0 && slot.due <= now ==> now + (slot.period - (now - slot.due) % slot.period) <= U64_MAX
  }

  predicate PollFits(s: State, index: nat, now: u64)
    requires index < 2
  {
    Due(s, index, now) ==> SlotFits(s.schedules[index], now)
  }

  // ---------------------------------------------------------------------
  // Events one by one.

  lemma SimilarEnd(s: State, p: Ref)
    requires Similar(s, p)
    ensures Similar(End(s), Reference.End(p))
  {
  }

  lemma SimilarTick(s: State, p: Ref, now: u64)
    requires Similar(s, p) && s.lastTime <= now
    ensures Similar(Tick(s, now), Reference.Tick(p, now * 1000))
  {
    var a, b := s.(lastTime := now), p.(lastTime := now * 1000);
    TickWf(s, now);
    Reference.TickConsistent(p, now * 1000);
    assert Tick(s, now) == Refill(Expire(a, now), now);
    assert Reference.Tick(p, now * 1000) == if p.owner.Some? && now * 1000 >= p.expiry then Reference.End(b) else b;
  }

  lemma SimilarReject(s: State, p: Ref, crc: bool)
    requires Similar(s, p)
    ensures Similar(Reject(s, crc), Reference.Reject(p))
  {
  }

  lemma SimilarSent(s: State, p: Ref, socket: nat, success: bool)
    requires Similar(s, p) && socket < 3
    ensures Similar(s.(counters := s.counters.Sent(socket, success)), Reference.Sent(p, Kind(socket), success))
  {
  }

  /** The two rule lists pick the same result code. */
  lemma SameCode(s: State, p: Ref, r: Envelope, peer: Peer)
    requires Similar(s, p) && Addressed(s, r) && 2 <= r.kind.value <= 4
    ensures Assess(s, r, peer) == Reference.Assess(p, r, (peer, r.sessionId.value))
  {
    if s.lease.Some? && s.Owner(peer, r.sessionId.value) && r.runEpoch == Some(s.epoch) {
      Isolation.ControlIdentifiesMessage(s, r, p.lastControl.value);
    }
  }

  /** An applied configure keeps the two in step exactly when all of its deadlines fit. */
  lemma SimilarAcquire(s: State, p: Ref, r: Envelope, peer: Peer, now: u64)
    requires Similar(s, p) && s.lastTime == now && Addressed(s, r) && r.kind == Some(2)
    requires Assess(s, r, peer) == APPLIED
    ensures var owner := (peer, r.sessionId.value);
            Reference.Assess(p, r, owner) == 1 &&
            (Similar(Perform(s, r, peer, now), Reference.Perform(p, r, owner, now * 1000)) <==>
             DeadlinesFit(r.configure.value, now))
  {
    SameCode(s, p, r, peer);
    PerformWf(s, r, peer, now);
    Reference.PerformConsistent(p, r, (peer, r.sessionId.value), now * 1000);
  }

  /** An applied renew does so exactly when the new expiry fits. */
  lemma SimilarRenew(s: State, p: Ref, r: Envelope, peer: Peer, now: u64)
    requires Similar(s, p) && s.lastTime == now && Addressed(s, r) && r.kind == Some(3)
    requires Assess(s, r, peer) == APPLIED
    ensures var owner := (peer, r.sessionId.value);
            Reference.Assess(p, r, owner) == 1 &&
            (Similar(Perform(s, r, peer, now), Reference.Perform(p, r, owner, now * 1000)) <==> RenewalFits(s, now))
  {
    SameCode(s, p, r, peer);
    PerformWf(s, r, peer, now);
    Reference.PerformConsistent(p, r, (peer, r.sessionId.value), now * 1000);
  }

  /** A stop sets no deadline. */
  lemma SimilarStop(s: State, p: Ref, r: Envelope, peer: Peer, now: u64)
    requires Similar(s, p) && s.lastTime == now && Addressed(s, r) && r.kind == Some(4)
    requires Assess(s, r, peer) == ENDED
    ensures var owner := (peer, r.sessionId.value);
            Reference.Assess(p, r, owner) == 3 &&
            Similar(Perform(s, r, peer, now), Reference.Perform(p, r, owner, now * 1000))
  {
    SameCode(s, p, r, peer);
    PerformWf(s, r, peer, now);
    Reference.PerformConsistent(p, r, (peer, r.sessionId.value), now * 1000);
  }

  /** How the firmware phrases the outcome of a control. */
  function Phrase(after: State, r: Envelope, peer: Peer, code: i32, now: u64): Option<Envelope>
    requires r.sessionId.Some?
  {
    Some(Base(after, r.sessionId.value, 12, now).(
           runEpoch := r.runEpoch, requestId := r.requestId,
           result := Some(ControlResult(Some(code), Some(Remaining(after, r, peer, now))))))
  }

  lemma SameResult(s: State, p: Ref, r: Envelope, peer: Peer, code: i32, now: u64)
    requires Similar(s, p) && s.lastTime == now && r.sessionId.Some?
    ensures SameReply(
              Phrase(s, r, peer, code, now),
              Reference.Answer(p, r, (peer, r.sessionId.value), code, now * 1000).1)
  {
    assert Remaining(s, r, peer, now) == Reference.Remaining(p, r, (peer, r.sessionId.value), now * 1000);
  }

  /** The state both sides reach from a control, before they phrase the reply. */
  lemma SimilarEffect(s: State, p: Ref, r: Envelope, peer: Peer, now: u64)
    returns (after: State, other: Ref)
    requires Similar(s, p) && s.lastTime == now && Addressed(s, r) && 2 <= r.kind.value <= 4
    ensures Wf(after) && after.lastTime == now
    ensures Reference.Consistent(other) && other.start <= other.lastTime == now * 1000
    ensures Similar(after, other) <==> ControlFits(s, r, peer, now)
    ensures var (owner, code) := ((peer, r.sessionId.value), Assess(s, r, peer));
            code == Reference.Assess(p, r, owner) &&
            after == (if code in {1, 3} then Perform(s, r, peer, now) else if code == 2 then s else Reject(s, false)) &&
            other == (if code in {1, 3} then Reference.Perform(p, r, owner, now * 1000)
                      else if code == 2 then p else Reference.Reject(p))
  {
    SameCode(s, p, r, peer);
    after, other := s, p;
    if Assess(s, r, peer) in {1, 3} {
      AppliedKinds(s, r, peer);
      if r.kind == Some(2) {
        SimilarAcquire(s, p, r, peer, now);
      } else if r.kind == Some(3) {
        SimilarRenew(s, p, r, peer, now);
      } else {
        SimilarStop(s, p, r, peer, now);
      }
      PerformWf(s, r, peer, now);
      Reference.PerformConsistent(p, r, (peer, r.sessionId.value), now * 1000);
      hide Perform, Reference.Perform, Assess, Reference.Assess, Similar, DeadlinesFit, RenewalFits;
      after, other := Perform(s, r, peer, now), Reference.Perform(p, r, (peer, r.sessionId.value), now * 1000);
    } else if Assess(s, r, peer) != 2 {
      SimilarReject(s, p, false);
      after, other := Reject(s, false), Reference.Reject(p);
    }
  }

  lemma AppliedKinds(s: State, r: Envelope, peer: Peer)
    requires Wf(s) && Addressed(s, r) && 2 <= r.kind.value <= 4
    ensures Assess(s, r, peer) == APPLIED ==> r.kind in {Some(2), Some(3)}
    ensures Assess(s, r, peer) == ENDED ==> r.kind == Some(4)
  {
  }

  /** The two replies to an applied configure agree exactly when the lease fits the clock. */
  lemma ConfigureRepliesAgreeIfLeaseFits(s: State, p: Ref, r: Envelope, peer: Peer, now: u64)
    requires Similar(s, p) && s.lastTime == now && Addressed(s, r) && r.kind == Some(2)
    requires Assess(s, r, peer) == APPLIED
    ensures SameReply(Respond(s, r, peer, now).1, Reference.Respond(p, r, peer, now * 1000).1) <==>
            now + r.configure.value.leaseMs.value * 1000 <= U64_MAX
  {
    var after, other := SimilarEffect(s, p, r, peer, now);
    ControlReplies(s, r, peer, after, now);
    ReferenceReplies(p, r, peer, other, now * 1000);
    ConfiguredRemaining(s, p, r, peer, now);
    hide Assess, Reference.Assess, Perform, Reference.Perform, Remaining, Reference.Remaining, SameReply, Similar;
    hide Respond, Reference.Respond, Wf, Reference.Consistent, DeadlinesFit;
    SameReplyIfSameRemaining(after, other, r, peer, 1, now);
  }

  /** Outcomes of services of one identity differ at most in the remaining lease. */
  lemma SameReplyIfSameRemaining(s: State, p: Ref, r: Envelope, peer: Peer, code: i32, now: u64)
    requires Reference.Consistent(p) && p.start <= p.lastTime == now * 1000 && r.sessionId.Some?
    requires s.device == p.device && s.boot == p.boot
    ensures SameReply(Phrase(s, r, peer, code, now),
                      Reference.Answer(p, r, (peer, r.sessionId.value), code, now * 1000).1) <==>
            Remaining(s, r, peer, now) == Reference.Remaining(p, r, (peer, r.sessionId.value), now * 1000)
  {
    hide Remaining, Reference.Remaining, Reference.Consistent;
  }

  lemma ControlReplies(s: State, r: Envelope, peer: Peer, after: State, now: u64)
    requires Wf(s) && Addressed(s, r) && 2 <= r.kind.value <= 4
    requires var code := Assess(s, r, peer);
             after == if code in {1, 3} then Perform(s, r, peer, now) else if code == 2 then s else Reject(s, false)
    ensures Respond(s, r, peer, now) == (after, Phrase(after, r, peer, Assess(s, r, peer), now))
  {
    hide Assess, Perform, Remaining, Base, Reject;
  }

  lemma ReferenceReplies(p: Ref, r: Envelope, peer: Peer, other: Ref, now: nat)
    requires Reference.Consistent(p) && Reference.Decoded(p, r) && p.start <= p.lastTime == now
    requires Reference.Expected(p, r) && 2 <= r.kind.value <= 4
    requires Reference.Consistent(other) && other.start <= other.lastTime == now
    requires var owner := (peer, r.sessionId.value);
             var code := Reference.Assess(p, r, owner);
             other == if code in {1, 3} then Reference.Perform(p, r, owner, now)
                      else if code == 2 then p else Reference.Reject(p)
    ensures var owner := (peer, r.sessionId.value);
            Reference.Respond(p, r, peer, now) == Reference.Answer(other, r, owner, Reference.Assess(p, r, owner), now)
  {
    hide Reference.Assess, Reference.Perform, Reference.Answer, Reference.Reject;
  }

  lemma SimilarControl(s: State, p: Ref, r: Envelope, peer: Peer, now: u64)
    requires Similar(s, p) && s.lastTime == now && Addressed(s, r) && 2 <= r.kind.value <= 4
    ensures Similar(Respond(s, r, peer, now).0, Reference.Respond(p, r, peer, now * 1000).0) <==>
            ControlFits(s, r, peer, now)
    ensures ControlFits(s, r, peer, now) ==>
              SameReply(Respond(s, r, peer, now).1, Reference.Respond(p, r, peer, now * 1000).1)
  {
    hide ControlFits;
    var after, other := SimilarEffect(s, p, r, peer, now);
    if ControlFits(s, r, peer, now) {
      SameResult(after, other, r, peer, Assess(s, r, peer), now);
    }
    ControlReplies(s, r, peer, after, now);
    ReferenceReplies(p, r, peer, other, now * 1000);
    hide Assess, Reference.Assess, Perform, Reference.Perform, Remaining, Reference.Remaining, SameReply;
    hide Reference.Header, Base, Respond, Reference.Respond;
  }

  lemma ConfiguredRemaining(s: State, p: Ref, r: Envelope, peer: Peer, now: u64)
    requires Similar(s, p) && s.lastTime == now && Addressed(s, r) && r.kind == Some(2)
    requires Assess(s, r, peer) == APPLIED && Reference.Assess(p, r, (peer, r.sessionId.value)) == 1
    ensures var (owner, lease) := ((peer, r.sessionId.value), r.configure.value.leaseMs.value);
            var (after, other) := (Perform(s, r, peer, now), Reference.Perform(p, r, owner, now * 1000));
            Reference.Consistent(other) && other.lastTime == now * 1000 &&
            after.device == other.device && after.boot == other.boot &&
            Remaining(after, r, peer, now) == Min(lease, (U64_MAX - now) / 1000) &&
            Reference.Remaining(other, r, owner, now * 1000) == lease
  {
    Reference.PerformConsistent(p, r, (peer, r.sessionId.value), now * 1000);
  }

  lemma SimilarAccept(s: State, p: Ref)
    requires Similar(s, p)
    ensures Similar(s.(counters := s.counters.Accept()),
                    p.(counters := p.counters.(received := Reference.Raised(p.counters.received, 1))))
  {
  }

  lemma SimilarProbe(s: State, p: Ref, r: Envelope, peer: Peer, now: u64)
    requires Similar(s, p) && s.lastTime == now && Addressed(s, r) && r.kind == Some(5)
    ensures Similar(Respond(s, r, peer, now).0, Reference.Respond(p, r, peer, now * 1000).0)
    ensures SameReply(Respond(s, r, peer, now).1, Reference.Respond(p, r, peer, now * 1000).1)
  {
    SimilarReject(s, p, false);
    SimilarAccept(s, p);
    hide Reject, Reference.Reject, SameCounters, SameRow, Reference.Consistent, Reference.Raised;
  }

  lemma SimilarRespond(s: State, p: Ref, r: Envelope, peer: Peer, now: u64)
    requires Similar(s, p) && s.lastTime == now && Reference.Decoded(p, r)
    ensures Similar(Respond(s, r, peer, now).0, Reference.Respond(p, r, peer, now * 1000).0) <==>
            RequestFits(s, r, peer, now)
    ensures RequestFits(s, r, peer, now) ==>
              SameReply(Respond(s, r, peer, now).1, Reference.Respond(p, r, peer, now * 1000).1)
  {
    if !Addressed(s, r) {
      SimilarReject(s, p, false);
      hide Reject, Reference.Reject;
    } else if 2 <= r.kind.value <= 4 {
      SimilarControl(s, p, r, peer, now);
    } else if r.kind == Some(5) {
      SimilarProbe(s, p, r, peer, now);
    }
  }

  // ---------------------------------------------------------------------
  // Publications.

  lemma SameSlot(slot: Publication, now: u64)
    requires slot.period > 0 && slot.due <= now && SlotFits(slot, now)
    ensures var taken := TakeSlot(slot, now);
            taken.skipped == (now * 1000 - slot.due * 1000) / (slot.period * 1000) &&
            taken.sequence == Wrap32(slot.sequence + taken.skipped) &&
            taken.next.due * 1000 == slot.due * 1000 + (taken.skipped + 1) * (slot.period * 1000) &&
            taken.next.period == slot.period && taken.next.sequence == Wrap32(taken.sequence + 1)
  {
    var late := now - slot.due;
    DivisionBounds(late, slot.period);
    ScaledSlot(late, slot.period);
    WrapAdds(late / slot.period, slot.sequence);
    assert now * 1000 - slot.due * 1000 == late * 1000;
    hide Wrap32;
  }

  lemma ScaledSlot(late: nat, period: nat)
    requires period > 0
    ensures var q := late / period;
            (late * 1000) / (period * 1000) == q &&
            (late + (period - late % period)) * 1000 == (q + 1) * (period * 1000)
  {
    DivisionBounds(late, period);
    var q := late / period;
    var m := q * period;
    assert (q + 1) * period == m + period;
    assert q * (period * 1000) == m * 1000;
    assert (q + 1) * (period * 1000) == m * 1000 + period * 1000;
    QuotientIs(late * 1000, period * 1000, q);
  }

  lemma SimilarAdvance(s: State, p: Ref, index: nat, skipped: u64, next: Publication)
    requires Similar(s, p) && s.lease.Some? && index < 2
    requires 0 < next.period == s.schedules[index].period
    ensures var taken := Slot(0, skipped, next);
            Similar(Advanced(s, index, taken), ReferenceAdvanced(p, index, taken))
  {
  }

  lemma SameSample(s: State, p: Ref, index: nat, sequence: u32, now: u64)
    requires Similar(s, p) && s.lease.Some? && index < 2 && s.lastTime == now
    ensures Timeless(Sample(s, index, sequence, now)) ==
            Timeless(Reference.Message(p, 21 + index, sequence, now * 1000))
  {
    assert true in s.counters.active <==> s.counters.active[0] || s.counters.active[1] || s.counters.active[2];
    assert Kind(0) == 0 && Kind(1) == 21 && Kind(2) == 22;
    assert p.activeSendErrors != {} <==> exists k :: k in p.activeSendErrors;
    assert s.counters.Report() == Reference.Report(p);
  }

  function Advanced(s: State, index: nat, taken: Slot): State
    requires index < 2
  {
    s.(schedules := s.schedules[index := taken.next], counters := s.counters.Skip(taken.skipped))
  }

  function ReferenceAdvanced(p: Ref, index: nat, taken: Slot): Ref
    requires index < 2
  {
    p.(counters := p.counters.(skipped := Reference.Raised(p.counters.skipped, taken.skipped)),
       schedules := p.schedules[21 + index :=
         Reference.Row(taken.next.due * 1000, taken.next.sequence, taken.next.period * 1000)])
  }

  lemma ReferenceAdvances(p: Ref, index: nat, slot: Publication, now: u64)
    requires Reference.Consistent(p) && index < 2 && slot.period > 0 && slot.due <= now
    requires SlotFits(slot, now) && SameRow(slot, p, 21 + index)
    ensures var taken := TakeSlot(slot, now);
            Reference.AdvanceRow(p, 21 + index, now * 1000) == (ReferenceAdvanced(p, index, taken), taken.sequence)
  {
    SameSlot(slot, now);
    hide TakeSlot, Reference.Consistent;
  }

  lemma ReferencePublishes(p: Ref, index: nat, slot: Publication, now: u64)
    requires Reference.Consistent(p) && p.start <= p.lastTime == now * 1000 && index < 2 && p.owner.Some?
    requires slot.period > 0 && slot.due <= now && SlotFits(slot, now) && SameRow(slot, p, 21 + index)
    ensures var taken := TakeSlot(slot, now);
            var other := ReferenceAdvanced(p, index, taken);
            Reference.Consistent(other) && other.owner.Some? &&
            Reference.PublishRow(p, 21 + index, now * 1000) ==
              (other, [Reference.Message(other, 21 + index, taken.sequence, now * 1000)])
  {
    hide TakeSlot, Reference.Message, Reference.AdvanceRow, Reference.Consistent;
    ReferenceAdvances(p, index, slot, now);
    Reference.AdvanceRowConsistent(p, 21 + index, now * 1000);
  }

  lemma DueAlike(s: State, p: Ref, index: nat, now: u64)
    requires Similar(s, p) && s.lastTime == now && index < 2
    ensures Due(s, index, now) <==> 21 + index in p.schedules && p.schedules[21 + index].due <= now * 1000
    ensures Due(s, index, now) ==>
              p.owner.Some? && SameRow(s.schedules[index], p, 21 + index) && s.schedules[index].period > 0 &&
              s.schedules[index].due <= now
  {
  }

  lemma SimilarAfterAdvance(s: State, p: Ref, index: nat, now: u64)
    requires Similar(s, p) && s.lastTime == now && Due(s, index, now)
    ensures var taken := TakeSlot(s.schedules[index], now);
            Similar(Advanced(s, index, taken), ReferenceAdvanced(p, index, taken))
  {
    var taken := TakeSlot(s.schedules[index], now);
    SimilarAdvance(s, p, index, taken.skipped, taken.next);
    hide Similar;
  }

  /** A boundary beyond the firmware's clock leaves the two rows apart. */
  lemma RowsPart(s: State, p: Ref, index: nat, now: u64)
    requires Wf(s) && Reference.Consistent(p) && p.start <= p.lastTime == now * 1000
    requires Similar(s, p) && s.lastTime == now && index < 2 && !PollFits(s, index, now)
    ensures !SameRow(Publish(s, index, now).0.schedules[index], Reference.PublishRow(p, 21 + index, now * 1000).0,
                     21 + index)
  {
    DueAlike(s, p, index, now);
    var slot := s.schedules[index];
    var late := now - slot.due;
    DivisionBounds(late, slot.period);
    ScaledSlot(late, slot.period);
    assert now * 1000 - slot.due * 1000 == late * 1000;
    hide Wrap32, Sample, Reference.Message, Similar, Wf, Reference.Consistent;
  }

  lemma SimilarPublish(s: State, p: Ref, index: nat, now: u64)
    requires Wf(s) && Reference.Consistent(p) && p.start <= p.lastTime == now * 1000
    requires Similar(s, p) && s.lastTime == now && index < 2
    ensures var (after, sample) := Publish(s, index, now);
            var (other, samples) := Reference.PublishRow(p, 21 + index, now * 1000);
            (Similar(after, other) <==> PollFits(s, index, now)) && after.lastTime == now &&
            (PollFits(s, index, now) ==>
               if sample.None? then samples == [] else |samples| == 1 && SameReply(sample, Some(samples[0])))
  {
    hide TakeSlot, Sample, Reference.Message, Similar, Wf, Reference.Consistent, SlotFits;
    DueAlike(s, p, index, now);
    if !PollFits(s, index, now) {
      RowsPart(s, p, index, now);
      SimilarHasSameRows(Publish(s, index, now).0, Reference.PublishRow(p, 21 + index, now * 1000).0, index);
    } else if Due(s, index, now) {
      var taken := TakeSlot(s.schedules[index], now);
      SimilarAfterAdvance(s, p, index, now);
      ReferencePublishes(p, index, s.schedules[index], now);
      SameSample(Advanced(s, index, taken), ReferenceAdvanced(p, index, taken), index, taken.sequence, now);
      hide Reference.PublishRow;
    }
  }

  lemma SimilarHasSameRows(s: State, p: Ref, index: nat)
    requires index < 2
    ensures Similar(s, p) ==> SameRow(s.schedules[index], p, 21 + index)
  {
  }

  // ---------------------------------------------------------------------
  // Whole runs.

  datatype Input =
    | Clock(now: u64)
    | Message(request: Envelope, peer: Peer, now: u64)
    | Garbage(crc: bool, now: u64)
    | Publications(now: u64)
    | LinkLoss
    | Delivery(socket: nat, success: bool)
    | Loss
  {
    predicate Timed() {
      Clock? || Message? || Garbage? || Publications?
    }

    /** Decoded messages, real sockets, and a clock that does not step back. */
    predicate Admissible(s: State) {
      (Timed() ==> s.lastTime <= now) && (Delivery? ==> socket < 3) &&
      (Message? ==> Validate(request, s.format, s.crc).Ok?)
    }

    /** Every deadline that this input sets fits the firmware's clock. */
    predicate Fits(s: State)
      requires Wf(s)
    {
      match this
      case Message(request, peer, now) => Wf(Tick(s, now)) && RequestFits(Tick(s, now), request, peer, now)
      case Publications(now) => PollFits(Tick(s, now), 0, now) && PollFits(Tick(s, now), 1, now)
      case _ => true
    }
  }

  /** The firmware's new state, and what it says before the reply limiter. */
  function Firmware(s: State, i: Input): (State, seq<Option<Envelope>>)
    requires Wf(s) && i.Admissible(s)
  {
    match i
    case Clock(now) => (Tick(s, now), [])
    case Message(request, peer, now) =>
      TickWf(s, now);
      (Handle(s, request, peer, now).0, [Respond(Tick(s, now), request, peer, now).1])
    case Garbage(crc, now) => (Reject(Tick(s, now), crc), [])
    case Publications(now) =>
      PollWf(s, 0, now);
      var (first, status) := Poll(s, 0, now);
      var (second, health) := Poll(first, 1, now);
      (second, Present(status) + Present(health))
    case LinkLoss => (End(s), [])
    case Delivery(socket, success) => (s.(counters := s.counters.Sent(socket, success)), [])
    case Loss => (s.(counters := s.counters.Skip(1)), [])
  }

  function Present(m: Option<Envelope>): seq<Option<Envelope>> {
    if m.None? then [] else [m]
  }

  function Each(ms: seq<Envelope>): seq<Option<Envelope>> {
    seq(|ms|, i requires 0 <= i < |ms| => Some(ms[i]))
  }

  function Host(p: Ref, i: Input): (Ref, seq<Option<Envelope>>)
    requires Reference.Consistent(p) && p.start <= p.lastTime && (i.Timed() ==> p.lastTime <= i.now * 1000)
    requires (i.Message? ==> Reference.Decoded(p, i.request)) && (i.Delivery? ==> i.socket < 3)
  {
    match i
    case Clock(now) => (Reference.Tick(p, now * 1000), [])
    case Message(request, peer, now) =>
      var (after, reply) := Reference.Handle(p, request, peer, now * 1000);
      (after, [reply])
    case Garbage(crc, now) => (Reference.Reject(Reference.Tick(p, now * 1000)), [])
    case Publications(now) =>
      var (after, messages) := Reference.Publications(p, now * 1000);
      (after, Each(messages))
    case LinkLoss => (Reference.End(p), [])
    case Delivery(socket, success) => (Reference.Sent(p, Kind(socket), success), [])
    case Loss => (p.(counters := p.counters.(skipped := Reference.Raised(p.counters.skipped, 1))), [])
  }

  predicate SameReplies(a: seq<Option<Envelope>>, b: seq<Option<Envelope>>) {
    |a| == |b| && forall k :: 0 <= k < |a| ==> SameReply(a[k], b[k])
  }

  lemma SimilarMessage(s: State, p: Ref, r: Envelope, peer: Peer, now: u64)
    requires Similar(s, p) && Message(r, peer, now).Admissible(s)
    ensures var i := Message(r, peer, now);
            (Similar(Firmware(s, i).0, Host(p, i).0) <==> i.Fits(s)) &&
            (i.Fits(s) ==> SameReplies(Firmware(s, i).1, Host(p, i).1))
  {
    SimilarTick(s, p, now);
    TickWf(s, now);
    RespondWf(Tick(s, now), r, peer, now);
    Reference.TickConsistent(p, now * 1000);
    SimilarRespond(Tick(s, now), Reference.Tick(p, now * 1000), r, peer, now);
    SimilarLimit(Respond(Tick(s, now), r, peer, now).0, Reference.Handle(p, r, peer, now * 1000).0,
                 Judge(Tick(s, now), r, peer), Respond(Tick(s, now), r, peer, now).1);
    hide Similar, Tick, Reference.Tick, Respond, Reference.Respond, Judge, SameReply, RequestFits;
  }

  /** The limiter touches nothing the two sides share. */
  lemma SimilarLimit(s: State, p: Ref, verdict: Verdict, reply: Option<Envelope>)
    requires Wf(s)
    ensures Similar(Limit(s, verdict, reply).0, p) <==> Similar(s, p)
  {
  }

  lemma PollAgain(s: State, index: nat, now: u64)
    requires Wf(s) && s.lastTime == now && Tick(s, now) == s
    ensures Poll(s, index, now) == Publish(s, index, now)
  {
  }

  /** A state that has been ticked, and polled since, does not change when ticked at the same instant. */
  lemma TickedStays(s: State, now: u64)
    requires Wf(s)
    ensures Wf(Tick(s, now)) && Tick(s, now).lastTime == now
    ensures var after := Publish(Tick(s, now), 0, now).0; Tick(after, now) == after
  {
    hide TakeSlot;
    TickWf(s, now);
  }

  lemma FirmwarePublications(s: State, now: u64)
    requires Wf(s) && Publications(now).Admissible(s)
    ensures Wf(Tick(s, now)) && Wf(Publish(Tick(s, now), 0, now).0)
    ensures var first := Publish(Tick(s, now), 0, now);
            var second := Publish(first.0, 1, now);
            Firmware(s, Publications(now)) == (second.0, Present(first.1) + Present(second.1))
  {
    TickWf(s, now);
    PollWf(s, 0, now);
    TickedStays(s, now);
    hide Tick, Publish, Wf;
    PollAgain(Publish(Tick(s, now), 0, now).0, 1, now);
  }

  lemma SimilarPublications(s: State, p: Ref, now: u64)
    requires Similar(s, p) && Publications(now).Admissible(s)
    ensures var i := Publications(now);
            (Similar(Firmware(s, i).0, Host(p, i).0) <==> i.Fits(s)) &&
            (i.Fits(s) ==> SameReplies(Firmware(s, i).1, Host(p, i).1))
  {
    SimilarTick(s, p, now);
    TickWf(s, now);
    Reference.TickConsistent(p, now * 1000);
    FirmwarePublications(s, now);
    Reference.PublishRowConsistent(Reference.Tick(p, now * 1000), 21, now * 1000);
    hide Similar, Firmware, Tick, Reference.Tick, Publish, Reference.PublishRow, SameReply, Wf, Reference.Consistent;
    hide PollFits;
    SimilarPublishBoth(Tick(s, now), Reference.Tick(p, now * 1000), now);
  }

  lemma SimilarIsWf(s: State, p: Ref)
    requires Similar(s, p)
    ensures Wf(s) && Reference.Consistent(p) && p.start <= p.lastTime == s.lastTime * 1000
  {
  }

  lemma SimilarPublishBoth(t: State, q: Ref, now: u64)
    requires Wf(t) && Reference.Consistent(q) && q.start <= q.lastTime == now * 1000
    requires Similar(t, q) && t.lastTime == now
    ensures Wf(Publish(t, 0, now).0) && Reference.Consistent(Reference.PublishRow(q, 21, now * 1000).0)
    ensures var row := Reference.PublishRow(q, 21, now * 1000);
            row.0.start <= row.0.lastTime == now * 1000
    ensures var (first, row) := (Publish(t, 0, now), Reference.PublishRow(q, 21, now * 1000));
            var (second, next) := (Publish(first.0, 1, now), Reference.PublishRow(row.0, 22, now * 1000));
            (Similar(second.0, next.0) <==> PollFits(t, 0, now) && PollFits(t, 1, now)) &&
            (PollFits(t, 0, now) && PollFits(t, 1, now) ==>
               SameReplies(Present(first.1) + Present(second.1), Each(row.1 + next.1)))
  {
    hide Similar, Publish, Reference.PublishRow, SameReply, Wf, Reference.Consistent, PollFits;
    SimilarPublish(t, q, 0, now);
    PublishLeavesTheOther(t, q, now);
    Reference.PublishRowConsistent(q, 21, now * 1000);
    var first, row := Publish(t, 0, now).0, Reference.PublishRow(q, 21, now * 1000).0;
    if PollFits(t, 0, now) {
      SimilarIsWf(first, row);
      SimilarPublish(first, row, 1, now);
    } else {
      RowsPart(t, q, 0, now);
      var second, next := Publish(first, 1, now).0, Reference.PublishRow(row, 22, now * 1000).0;
      SimilarHasSameRows(second, next, 0);
    }
  }

  /** Polling one stream leaves the other alone. */
  lemma PublishLeavesTheOther(t: State, q: Ref, now: u64)
    requires Wf(t) && Reference.Consistent(q) && q.start <= q.lastTime == now * 1000 && t.lastTime == now
    ensures Wf(Publish(t, 0, now).0) && PollFits(Publish(t, 0, now).0, 1, now) == PollFits(t, 1, now)
    ensures var (first, row) := (Publish(t, 0, now).0, Reference.PublishRow(q, 21, now * 1000).0);
            Reference.Consistent(row) && row.start <= row.lastTime == now * 1000 &&
            Publish(first, 1, now).0.schedules[0] == first.schedules[0] &&
            (SameRow(first.schedules[0], Reference.PublishRow(row, 22, now * 1000).0, 21) ==
             SameRow(first.schedules[0], row, 21))
  {
    Reference.PublishRowConsistent(q, 21, now * 1000);
    hide TakeSlot, Sample, Reference.Message, SlotFits;
  }

  lemma SimilarLoss(s: State, p: Ref)
    requires Similar(s, p)
    ensures Similar(s.(counters := s.counters.Skip(1)),
                    p.(counters := p.counters.(skipped := Reference.Raised(p.counters.skipped, 1))))
  {
  }

  /** One input keeps the two in step if and only if its deadlines fit, and then they say the same. */
  lemma StepAgreesIfItFits(s: State, p: Ref, i: Input)
    requires Similar(s, p) && i.Admissible(s)
    ensures Similar(Firmware(s, i).0, Host(p, i).0) <==> i.Fits(s)
    ensures i.Fits(s) ==> SameReplies(Firmware(s, i).1, Host(p, i).1)
  {
    hide Tick, Reference.Tick, Reject, Reference.Reject, End, Reference.End, Handle, Reference.Handle, Poll;
    hide Reference.Publications, SameCounters, SameLease, SameRow, RequestFits, PollFits;
    match i
    case Clock(now) => SimilarTick(s, p, now);
    case Message(request, peer, now) => SimilarMessage(s, p, request, peer, now);
    case Garbage(crc, now) =>
      SimilarTick(s, p, now);
      SimilarReject(Tick(s, now), Reference.Tick(p, now * 1000), crc);
    case Publications(now) => SimilarPublications(s, p, now);
    case LinkLoss => SimilarEnd(s, p);
    case Delivery(socket, success) => SimilarSent(s, p, socket, success);
    case Loss => SimilarLoss(s, p);
  }

  predicate AllFit(s: State, inputs: seq<Input>)
    requires Wf(s)
    decreases |inputs|
  {
    inputs == [] ||
    (inputs[0].Admissible(s) && inputs[0].Fits(s) && Wf(Firmware(s, inputs[0]).0) &&
     AllFit(Firmware(s, inputs[0]).0, inputs[1..]))
  }

  function FirmwareRun(s: State, inputs: seq<Input>): (State, seq<Option<Envelope>>)
    requires Wf(s) && AllFit(s, inputs)
    decreases |inputs|
  {
    if inputs == [] then (s, [])
    else
      var (next, said) := Firmware(s, inputs[0]);
      var (end, rest) := FirmwareRun(next, inputs[1..]);
      (end, said + rest)
  }

  /** The host side of the same run; it is total because both stay similar. */
  function HostRun(s: State, p: Ref, inputs: seq<Input>): (Ref, seq<Option<Envelope>>)
    requires Similar(s, p) && AllFit(s, inputs)
    decreases |inputs|
  {
    if inputs == [] then (p, [])
    else
      StepAgreesIfItFits(s, p, inputs[0]);
      var (next, said) := Host(p, inputs[0]);
      var (end, rest) := HostRun(Firmware(s, inputs[0]).0, next, inputs[1..]);
      (end, said + rest)
  }

  lemma SameRepliesJoin(a: seq<Option<Envelope>>, b: seq<Option<Envelope>>,
                        c: seq<Option<Envelope>>, d: seq<Option<Envelope>>)
    requires SameReplies(a, b) && SameReplies(c, d)
    ensures SameReplies(a + c, b + d)
  {
  }

  /** Over every run of decoded input the two implementations stay in step and give the same answers. */
  lemma {:induction false} ImplementationsAgree(s: State, p: Ref, inputs: seq<Input>)
    requires Similar(s, p) && AllFit(s, inputs)
    ensures Similar(FirmwareRun(s, inputs).0, HostRun(s, p, inputs).0)
    ensures SameReplies(FirmwareRun(s, inputs).1, HostRun(s, p, inputs).1)
    decreases |inputs|
  {
    if inputs != [] {
      StepAgreesIfItFits(s, p, inputs[0]);
      var (next, said) := Firmware(s, inputs[0]);
      var (other, heard) := Host(p, inputs[0]);
      assert Wf(next) && AllFit(next, inputs[1..]);
      hide Similar, Firmware, Host, SameReplies, Wf;
      ImplementationsAgree(next, other, inputs[1..]);
      SameRepliesJoin(said, heard, FirmwareRun(next, inputs[1..]).1, HostRun(next, other, inputs[1..]).1);
    }
  }

  /** After a run that fits, one more input parts the two if and only if a deadline of it does not. */
  lemma RunsPartAtTheFirstMisfit(s: State, p: Ref, inputs: seq<Input>, last: Input)
    requires Similar(s, p) && AllFit(s, inputs)
    ensures var (end, other) := (FirmwareRun(s, inputs).0, HostRun(s, p, inputs).0);
            Similar(end, other) && Wf(end) &&
            (last.Admissible(end) ==>
               (Similar(Firmware(end, last).0, Host(other, last).0) <==> last.Fits(end)))
  {
    ImplementationsAgree(s, p, inputs);
    var end, other := FirmwareRun(s, inputs).0, HostRun(s, p, inputs).0;
    if last.Admissible(end) {
      hide FirmwareRun, HostRun, AllFit, Firmware, Host;
      StepAgreesIfItFits(end, other, last);
    }
  }

  function ReferenceInitial(device: Text32, boot: Text16, format: Format, crc: CrcMode, start: nat): Ref {
    Reference.Ref(device, boot, format, crc, start, start, 1, false, None, None, None, 0, map[],
                  Reference.NONE_COUNTED, {})
  }

  lemma FreshServicesAreSimilar(device: Text32, boot: Text16, format: Format, crc: CrcMode, now: u64)
    ensures Similar(Initial(device, boot, format, crc, now), ReferenceInitial(device, boot, format, crc, now * 1000))
  {
    assert forall i :: 0 <= i < 3 ==> !ZERO.active[i];
  }

  /** An applied configure whose lease reaches beyond the firmware's clock: states and replies part at once. */
  lemma OverlongLeaseParts(s: State, p: Ref, r: Envelope, peer: Peer, now: u64)
    requires Similar(s, p) && Message(r, peer, now).Admissible(s) && Wf(Tick(s, now)) && Addressed(Tick(s, now), r)
    requires r.kind == Some(2) && Assess(Tick(s, now), r, peer) == APPLIED
    requires now + r.configure.value.leaseMs.value * 1000 > U64_MAX
    ensures var i := Message(r, peer, now);
            !i.Fits(s) && !Similar(Firmware(s, i).0, Host(p, i).0) && !SameReplies(Firmware(s, i).1, Host(p, i).1)
  {
    SimilarTick(s, p, now);
    Reference.TickConsistent(p, now * 1000);
    OverlongLeaseDoesNotFit(Tick(s, now), r, peer, now);
    MessageReplies(s, p, r, peer, now);
    hide Similar, Respond, Reference.Respond, Tick, Reference.Tick, Assess, SameReply, SameReplies, Addressed, Wf;
    hide Validate, Firmware, Host, RequestFits, Reference.Consistent;
    TickedTime(s, now);
    ConfigureRepliesAgreeIfLeaseFits(Tick(s, now), Reference.Tick(p, now * 1000), r, peer, now);
    StepAgreesIfItFits(s, p, Message(r, peer, now));
  }

  lemma TickedTime(s: State, now: u64)
    requires Wf(s)
    ensures Wf(Tick(s, now)) && Tick(s, now).lastTime == now
  {
    TickWf(s, now);
  }

  lemma OverlongLeaseDoesNotFit(s: State, r: Envelope, peer: Peer, now: u64)
    requires Wf(s) && Addressed(s, r) && r.kind == Some(2) && Assess(s, r, peer) == APPLIED
    requires now + r.configure.value.leaseMs.value * 1000 > U64_MAX
    ensures !RequestFits(s, r, peer, now)
  {
    hide Wf, Addressed, Assess;
  }

  lemma MessageReplies(s: State, p: Ref, r: Envelope, peer: Peer, now: u64)
    requires Similar(s, p) && Message(r, peer, now).Admissible(s)
    ensures Wf(Tick(s, now)) && Reference.Consistent(Reference.Tick(p, now * 1000))
    ensures Reference.Tick(p, now * 1000).start <= Reference.Tick(p, now * 1000).lastTime == now * 1000
    ensures var i := Message(r, peer, now);
            SameReplies(Firmware(s, i).1, Host(p, i).1) <==>
            SameReply(Respond(Tick(s, now), r, peer, now).1,
                      Reference.Respond(Reference.Tick(p, now * 1000), r, peer, now * 1000).1)
  {
    TickWf(s, now);
    Reference.TickConsistent(p, now * 1000);
    FirmwareSays(s, r, peer, now);
    HostSays(p, r, peer, now);
    hide Similar, Tick, Reference.Tick, Respond, Reference.Respond, SameReply, Firmware, Host, Validate;
    OneReply(Respond(Tick(s, now), r, peer, now).1,
             Reference.Respond(Reference.Tick(p, now * 1000), r, peer, now * 1000).1);
  }

  lemma FirmwareSays(s: State, r: Envelope, peer: Peer, now: u64)
    requires Wf(s) && Message(r, peer, now).Admissible(s) && Wf(Tick(s, now))
    ensures Firmware(s, Message(r, peer, now)).1 == [Respond(Tick(s, now), r, peer, now).1]
  {
    hide Tick, Respond, Handle, Validate;
  }

  lemma HostSays(p: Ref, r: Envelope, peer: Peer, now: u64)
    requires Reference.Consistent(p) && p.start <= p.lastTime <= now * 1000 && Reference.Decoded(p, r)
    requires Reference.Consistent(Reference.Tick(p, now * 1000)) && p.start == Reference.Tick(p, now * 1000).start
    requires Reference.Tick(p, now * 1000).lastTime == now * 1000
    ensures Host(p, Message(r, peer, now)).1
         == [Reference.Respond(Reference.Tick(p, now * 1000), r, peer, now * 1000).1]
  {
    hide Reference.Tick, Reference.Respond, Reference.Consistent, Validate;
  }

  lemma OneReply(a: Option<Envelope>, b: Option<Envelope>)
    ensures SameReplies([a], [b]) <==> SameReply(a, b)
  {
    hide SameReply;
    assert [a][0] == a && [b][0] == b;
  }

  lemma ExampleIsApplied(peer: Peer, now: u64)
    ensures var s := Initial(GoldenRequest.DEVICE, GoldenConfigure.BOOT, Csv, Off, now);
            Wf(s) && Tick(s, now) == s && Addressed(s, GoldenConfigure.REQUEST) &&
            Assess(s, GoldenConfigure.REQUEST, peer) == APPLIED
  {
    GoldenConfigure.RequestIsValid(Csv, Off);
    hide Validate;
  }

  /** An input at which they do part: a configure at the last microsecond of the firmware's clock. */
  lemma TheyPartAtTheEndOfTheClock(peer: Peer)
    ensures var s := Initial(GoldenRequest.DEVICE, GoldenConfigure.BOOT, Csv, Off, U64_MAX);
            var p := ReferenceInitial(GoldenRequest.DEVICE, GoldenConfigure.BOOT, Csv, Off, U64_MAX * 1000);
            var i := Message(GoldenConfigure.REQUEST, peer, U64_MAX);
            Similar(s, p) && i.Admissible(s) && !i.Fits(s) &&
            !Similar(Firmware(s, i).0, Host(p, i).0) && !SameReplies(Firmware(s, i).1, Host(p, i).1)
  {
    var s := Initial(GoldenRequest.DEVICE, GoldenConfigure.BOOT, Csv, Off, U64_MAX);
    var p := ReferenceInitial(GoldenRequest.DEVICE, GoldenConfigure.BOOT, Csv, Off, U64_MAX * 1000);
    FreshServicesAreSimilar(GoldenRequest.DEVICE, GoldenConfigure.BOOT, Csv, Off, U64_MAX);
    GoldenConfigure.RequestIsValid(Csv, Off);
    ExampleIsApplied(peer, U64_MAX);
    hide Validate, Similar, Firmware, Host, Tick, Assess, Addressed, Wf, SameReplies;
    OverlongLeaseParts(s, p, GoldenConfigure.REQUEST, peer, U64_MAX);
  }
}
