/** The leased benchmark service as a state machine on values. All times are microseconds. */
module BenchmarkSpec {
  import opened Machine
  import opened Messages
  import opened Benchmark

  datatype Peer = Peer(address: seq<Byte>, port: nat)
  datatype Control = Control(kind: i32, id: u32, configuration: Option<Configuration>)
  datatype Lease = Lease(peer: Peer, session: Text16, configuration: Configuration, last: Control, expiry: u64)
  datatype Publication = Publication(due: u64, period: u32, sequence: u32)

  type Activity = s: seq<bool> | |s| == 3 witness [false, false, false]
  type Schedules = s: seq<Publication> | |s| == 2 witness [IDLE, IDLE]

  const IDLE := Publication(0, 0, 0)
  const STOPPED: Schedules := [IDLE, IDLE]
  const TOKEN_PERIOD := 100_000

  datatype Counters = Counters(
    received: u32, rejected: u32, crcRejections: u32, sendErrors: u32, skipped: u32, active: Activity)
  {
    function Skip(amount: nat): Counters {
      this.(skipped := SaturatingAdd32(skipped, Min(amount, U32_MAX)))
    }

    function Sent(socket: nat, success: bool): Counters
      requires socket < 3
    {
      var marked := this.(active := active[socket := !success]);
      if success then marked else marked.(sendErrors := SaturatingAdd32(sendErrors, 1))
    }

    function Accept(): Counters {
      this.(received := SaturatingAdd32(received, 1))
    }

    function Report(): Health {
      Health(Some(if true in active then 2 else 1), Some(received), Some(rejected), Some(sendErrors), Some(skipped))
    }
  }

  const ZERO := Counters(0, 0, 0, 0, 0, [false, false, false])

  datatype State = State(
    device: Text32, boot: Text16, format: Format, crc: CrcMode,
    epoch: u32, exhausted: bool, lease: Option<Lease>, schedules: Schedules,
    tokens: nat, tokenTime: u64, lastTime: u64, counters: Counters, suppressed: u32)
  {
    predicate Active() {
      lease.Some?
    }

    /** The peer and session that hold the lease. */
    predicate Owner(peer: Peer, session: Text16) {
      lease.Some? && lease.value.peer == peer && lease.value.session == session
    }
  }

  function Initial(device: Text32, boot: Text16, format: Format, crc: CrcMode, now: u64): State {
    State(device, boot, format, crc, 1, false, None, STOPPED, 10, now, now, ZERO, 0)
  }

  /** What every reachable state satisfies. */
  predicate Wf(s: State) {
    1 <= s.epoch && s.tokens <= 10 && s.tokenTime <= s.lastTime &&
    (s.exhausted ==> s.epoch == U32_MAX && s.lease.None?) &&
    match s.lease
    case None => s.schedules == STOPPED
    case Some(l) =>
      ConfigurationValid(l.configuration) && Nonce(Some(l.session)) &&
      s.lastTime <= l.expiry <= s.lastTime + l.configuration.leaseMs.value * 1000 &&
      s.schedules[0].period == l.configuration.statusPeriodUs.value &&
      s.schedules[1].period == l.configuration.healthPeriodUs.value
  }

  /** Symbol k of digits, then capitals, then small letters. */
  function Symbol(k: nat): Byte
    requires k < 62
  {
    if k < 10 then '0' as int + k else if k < 36 then 'A' as int + (k - 10) else 'a' as int + (k - 36)
  }

  function Pattern(length: u32, seed: u32, token: u32): Option<Text512> {
    if length > 512 then None
    else
      var symbols: Text := seq<Byte>(length, i requires 0 <= i < length => Symbol((seed % 62 + token % 62 + i) % 62));
      Some(symbols)
  }

  function End(s: State): State {
    if s.lease.None? then s
    else s.(lease := None, schedules := STOPPED,
            exhausted := s.exhausted || s.epoch == U32_MAX,
            epoch := if s.epoch == U32_MAX then U32_MAX else s.epoch + 1)
  }

  function Refill(s: State, now: u64): State {
    var elapsed := SaturatingSub(now, s.tokenTime);
    var refill := elapsed / TOKEN_PERIOD;
    if refill > 0 then
      s.(tokens := Min(s.tokens + Min(refill, 10), 10), tokenTime := now - elapsed % TOKEN_PERIOD)
    else s
  }

  function Expire(s: State, now: u64): State {
    if s.lease.Some? && now >= s.lease.value.expiry then End(s) else s
  }

  function Tick(s: State, now: u64): State {
    var rolled := if now < s.lastTime then End(s).(tokenTime := now) else s;
    Refill(Expire(rolled.(lastTime := now), now), now)
  }

  function Reject(s: State, crc: bool): State {
    if s.lease.None? then s
    else s.(counters := s.counters.(
              rejected := SaturatingAdd32(s.counters.rejected, 1),
              crcRejections := if crc then SaturatingAdd32(s.counters.crcRejections, 1) else s.counters.crcRejections))
  }

  function Base(s: State, session: Text16, kind: i32, now: u64): Envelope {
    BLANK.(protocolVersion := Some(1), kind := Some(kind), deviceId := Some(s.device), bootId := Some(s.boot),
           sessionId := Some(session), runEpoch := Some(s.epoch), uptimeMs := Some(Wrap32(now / 1000)))
  }

  const APPLIED := 1
  const DUPLICATE := 2
  const ENDED := 3
  const BAD_CONFIGURATION := 4
  const BUSY := 5
  const STALE_RUN := 6
  const STALE_CONTROL := 7
  const CONFLICT := 8
  const NOT_ACTIVE := 9
  const NO_MORE_EPOCHS := 10

  /** What a request deserves in a state that has already been ticked. */
  datatype Verdict = Ignored | Discovery | Probe | Result(code: i32)

  predicate Addressed(s: State, r: Envelope) {
    Validate(r, s.format, s.crc).Ok? && r.deviceId == Some(s.device) && 1 <= r.kind.value <= 5 &&
    (r.kind.value != 1 ==> r.bootId == Some(s.boot))
  }

  function ControlOf(r: Envelope): Control
    requires r.kind.Some? && r.requestId.Some?
  {
    Control(r.kind.value, r.requestId.value, r.configure)
  }

  function Assess(s: State, r: Envelope, peer: Peer): (code: i32)
    requires Addressed(s, r) && 2 <= r.kind.value <= 4
  {
    var id := r.requestId.value;
    if r.runEpoch != Some(s.epoch) then STALE_RUN
    else if s.exhausted then NO_MORE_EPOCHS
    else if s.lease.Some? && !s.Owner(peer, r.sessionId.value) then BUSY
    else if s.lease.Some? && s.lease.value.last.id == id then
      if s.lease.value.last == ControlOf(r) then DUPLICATE else CONFLICT
    else if s.lease.Some? && id < s.lease.value.last.id then STALE_CONTROL
    else if r.kind == Some(2) && !ConfigurationValid(r.configure.value) then BAD_CONFIGURATION
    else if r.kind == Some(2) && s.lease.Some? then BUSY
    else if r.kind != Some(2) && s.lease.None? then NOT_ACTIVE
    else if r.kind == Some(4) then ENDED
    else APPLIED
  }

  function Judge(s: State, r: Envelope, peer: Peer): Verdict
    requires Wf(s)
  {
    if !Addressed(s, r) then Ignored
    else if r.kind == Some(1) then Discovery
    else if r.kind == Some(5) then
      if s.Owner(peer, r.sessionId.value) && r.runEpoch == Some(s.epoch) &&
         r.payload == Pattern(s.lease.value.configuration.payloadBytes.value,
                              s.lease.value.configuration.patternSeed.value, r.requestId.value)
      then Probe else Ignored
    else Result(Assess(s, r, peer))
  }

  function FirstSlot(period: u32, now: u64): Publication {
    Publication(SaturatingAdd64(now, period), period, 0)
  }

  function Acquire(s: State, r: Envelope, peer: Peer, now: u64): State
    requires r.configure.Some? && Complete(r.configure.value) && r.sessionId.Some? && r.kind.Some? && r.requestId.Some?
  {
    var c := r.configure.value;
    s.(schedules := [FirstSlot(c.statusPeriodUs.value, now), FirstSlot(c.healthPeriodUs.value, now)],
       counters := ZERO, lease := Some(Lease(peer, r.sessionId.value, c, ControlOf(r), 0)))
  }

  function Renew(s: State, r: Envelope, now: u64): State
    requires s.lease.Some? && s.lease.value.configuration.leaseMs.Some? && r.kind.Some? && r.requestId.Some?
  {
    var l := s.lease.value;
    s.(lease := Some(l.(last := ControlOf(r),
                        expiry := SaturatingAdd64(now, l.configuration.leaseMs.value * 1000))))
  }

  /** Effect of a control that was answered APPLIED or ENDED. */
  function Perform(s: State, r: Envelope, peer: Peer, now: u64): State
    requires Wf(s) && Addressed(s, r) && 2 <= r.kind.value <= 4 && Assess(s, r, peer) in {APPLIED, ENDED}
  {
    var acquired := if r.kind == Some(2) then Acquire(s, r, peer, now) else s;
    var counted := acquired.(counters := acquired.counters.Accept());
    if r.kind == Some(4) then End(counted) else Renew(counted, r, now)
  }

  function Remaining(s: State, r: Envelope, peer: Peer, now: u64): u32
    requires r.sessionId.Some?
  {
    if s.Owner(peer, r.sessionId.value) && r.runEpoch == Some(s.epoch)
    then Wrap32(SaturatingSub(s.lease.value.expiry, now) / 1000) else 0
  }

  /** New state and reply before the reply limiter, from a ticked state. */
  function Respond(s: State, r: Envelope, peer: Peer, now: u64): (State, Option<Envelope>)
    requires Wf(s)
  {
    match Judge(s, r, peer)
    case Ignored => (Reject(s, false), None)
    case Discovery =>
      (s, Some(Base(s, r.sessionId.value, 11, now).(
                 limits := Some(Advertised(s.format, s.crc, !s.Active() && !s.exhausted)), requestId := r.requestId)))
    case Probe =>
      (s.(counters := s.counters.Accept()),
       Some(Base(s, r.sessionId.value, 15, now).(
              payload := r.payload, probeResponse := Some(Empty.Empty), requestId := r.requestId)))
    case Result(code) =>
      var after := if code in {APPLIED, ENDED} then Perform(s, r, peer, now)
                   else if code == DUPLICATE then s else Reject(s, false);
      (after, Some(Base(after, r.sessionId.value, 12, now).(
                     runEpoch := r.runEpoch, requestId := r.requestId,
                     result := Some(ControlResult(Some(code), Some(Remaining(after, r, peer, now)))))))
  }

  /** The reply limiter: probes bypass it, every other reply costs a token. */
  function Limit(s: State, verdict: Verdict, reply: Option<Envelope>): (State, Option<Envelope>) {
    if verdict in {Ignored, Probe} then (s, reply)
    else if s.tokens == 0 then (s.(suppressed := SaturatingAdd32(s.suppressed, 1)), None)
    else (s.(tokens := s.tokens - 1), reply)
  }

  function Handle(s: State, r: Envelope, peer: Peer, now: u64): (State, Option<Envelope>)
    requires Wf(s)
  {
    TickWf(s, now);
    var ticked := Tick(s, now);
    var (after, reply) := Respond(ticked, r, peer, now);
    Limit(after, Judge(ticked, r, peer), reply)
  }

  datatype Slot = Slot(sequence: u32, skipped: u64, next: Publication)

  /** The newest due slot of one stream, and the schedule after it. */
  function TakeSlot(p: Publication, now: u64): (slot: Slot)
    requires p.period > 0 && p.due <= now
  {
    DivisionBounds(now - p.due, p.period);
    var skipped := (now - p.due) / p.period;
    var sequence := Wrap32(p.sequence + Wrap32(skipped));
    Slot(sequence, skipped,
         Publication(SaturatingAdd64(now, p.period - (now - p.due) % p.period), p.period, Wrap32(sequence + 1)))
  }

  predicate Due(s: State, index: nat, now: u64) {
    index < 2 && s.lease.Some? && s.schedules[index].period > 0 && s.schedules[index].due <= now
  }

  function Sample(s: State, index: nat, sequence: u32, now: u64): Envelope
    requires Wf(s) && s.lease.Some? && index < 2
  {
    var c := s.lease.value.configuration;
    var base := Base(s, s.lease.value.session, 21 + index, now).(
      sequence := Some(sequence), payload := Pattern(c.payloadBytes.value, c.patternSeed.value, sequence));
    if index == 0 then base.(status := Some(Status.Status(Some(0x41C8_0000), Some(1), Some(true))))
    else base.(health := Some(s.counters.Report()))
  }

  /** Poll one stream in a ticked state. */
  function Publish(s: State, index: nat, now: u64): (State, Option<Envelope>)
    requires Wf(s)
  {
    if !Due(s, index, now) then (s, None)
    else
      var slot := TakeSlot(s.schedules[index], now);
      var after := s.(schedules := s.schedules[index := slot.next], counters := s.counters.Skip(slot.skipped));
      (after, Some(Sample(after, index, slot.sequence, now)))
  }

  function Poll(s: State, index: nat, now: u64): (State, Option<Envelope>)
    requires Wf(s)
  {
    TickWf(s, now);
    Publish(Tick(s, now), index, now)
  }

  // ---------------------------------------------------------------------
  // The invariant is kept by every step.

  lemma TickWf(s: State, now: u64)
    requires Wf(s)
    ensures Wf(Tick(s, now)) && Tick(s, now).lastTime == now
  {
  }

  lemma PerformWf(s: State, r: Envelope, peer: Peer, now: u64)
    requires Wf(s) && s.lastTime == now && Addressed(s, r) && 2 <= r.kind.value <= 4
    requires Assess(s, r, peer) in {APPLIED, ENDED}
    ensures Wf(Perform(s, r, peer, now)) && Perform(s, r, peer, now).lastTime == now
  {
  }

  lemma RespondWf(s: State, r: Envelope, peer: Peer, now: u64)
    requires Wf(s) && s.lastTime == now
    ensures Wf(Respond(s, r, peer, now).0) && Respond(s, r, peer, now).0.lastTime == now
  {
    match Judge(s, r, peer)
    case Result(code) =>
      if code in {APPLIED, ENDED} {
        PerformWf(s, r, peer, now);
      }
    case _ =>
  }

  lemma HandleWf(s: State, r: Envelope, peer: Peer, now: u64)
    requires Wf(s)
    ensures Wf(Handle(s, r, peer, now).0) && Handle(s, r, peer, now).0.lastTime == now
  {
    TickWf(s, now);
    RespondWf(Tick(s, now), r, peer, now);
  }

  lemma PollWf(s: State, index: nat, now: u64)
    requires Wf(s)
    ensures Wf(Poll(s, index, now).0) && Poll(s, index, now).0.lastTime == now
  {
    TickWf(s, now);
  }
}
