/** The independent host implementation of the service, on values. Times are nanoseconds. */
module ReferenceSpec {
  import opened Machine
  import opened Messages
  import opened Benchmark
  import BenchmarkSpec

  type Peer = BenchmarkSpec.Peer

  datatype Row = Row(due: nat, sequence: u32, period: nat)

  datatype Counts = Counts(received: nat, rejected: nat, sendErrors: nat, skipped: nat)

  datatype Ref = Ref(
    device: Text32, boot: Text16, encoding: Format, crc: CrcMode, start: nat, lastTime: nat,
    epoch: u32, exhausted: bool, owner: Option<(Peer, Text16)>, config: Option<Configuration>,
    lastControl: Option<Envelope>, expiry: nat, schedules: map<i32, Row>,
    counters: Counts, activeSendErrors: set<i32>)

  const NONE_COUNTED := Counts(0, 0, 0, 0)

  /** What the fields satisfy together: there is a configuration exactly while there is an owner. */
  predicate Consistent(s: Ref) {
    s.epoch >= 1 && s.owner.Some? == s.config.Some? && s.owner.Some? == s.lastControl.Some? &&
    (s.owner.None? ==> s.schedules == map[]) &&
    (s.config.Some? ==>
       ConfigurationValid(s.config.value) && s.expiry <= s.lastTime + s.config.value.leaseMs.value * 1_000_000) &&
    (s.lastControl.Some? ==> s.lastControl.value.requestId.Some?) &&
    s.schedules.Keys <= {21, 22} && (forall k :: k in s.schedules ==> s.schedules[k].period > 0) &&
    Bounded(s.counters.received) && Bounded(s.counters.rejected) &&
    Bounded(s.counters.sendErrors) && Bounded(s.counters.skipped)
  }

  predicate Bounded(n: nat) {
    n <= U32_MAX
  }

  function Raised(n: nat, amount: nat): nat {
    Min(U32_MAX, n + amount)
  }

  function End(s: Ref): Ref {
    if s.owner.None? then s
    else s.(owner := None, config := None, lastControl := None, schedules := map[],
            exhausted := s.exhausted || s.epoch == U32_MAX,
            epoch := if s.epoch == U32_MAX then s.epoch else s.epoch + 1)
  }

  function Tick(s: Ref, now: nat): Ref
    requires s.lastTime <= now
  {
    var clocked := s.(lastTime := now);
    if s.owner.Some? && now >= s.expiry then End(clocked) else clocked
  }

  function Reject(s: Ref): Ref {
    if s.owner.None? then s else s.(counters := s.counters.(rejected := Raised(s.counters.rejected, 1)))
  }

  function Sent(s: Ref, kind: i32, success: bool): Ref {
    if success then s.(activeSendErrors := s.activeSendErrors - {kind})
    else s.(activeSendErrors := s.activeSendErrors + {kind},
            counters := s.counters.(sendErrors := Raised(s.counters.sendErrors, 1)))
  }

  function Header(s: Ref, session: Text16, kind: i32, now: nat): Envelope
    requires s.start <= now
  {
    BLANK.(protocolVersion := Some(1), kind := Some(kind), deviceId := Some(s.device), bootId := Some(s.boot),
           sessionId := Some(session), runEpoch := Some(s.epoch),
           uptimeMs := Some(Wrap32((now - s.start) / 1_000_000)))
  }

  function Assess(s: Ref, m: Envelope, owner: (Peer, Text16)): (code: i32)
    requires Consistent(s) && m.kind.Some? && m.requestId.Some? && (m.kind == Some(2) ==> m.configure.Some?)
  {
    var id := m.requestId.value;
    if m.runEpoch != Some(s.epoch) then 6
    else if s.exhausted then 10
    else if s.owner.Some? && s.owner != Some(owner) then 5
    else if s.lastControl.Some? && id == s.lastControl.value.requestId.value then
      if m == s.lastControl.value then 2 else 8
    else if s.lastControl.Some? && id < s.lastControl.value.requestId.value then 7
    else if m.kind == Some(2) && !ConfigurationValid(m.configure.value) then 4
    else if m.kind == Some(2) && s.owner.Some? then 5
    else if m.kind != Some(2) && s.owner.None? then 9
    else if m.kind == Some(4) then 3
    else 1
  }

  function Rows(config: Configuration, now: nat): (rows: map<i32, Row>)
    requires ConfigurationValid(config)
  {
    var status, health := config.statusPeriodUs.value, config.healthPeriodUs.value;
    (if status == 0 then map[] else map[21 := Row(now + status * 1000, 0, status * 1000)]) +
    (if health == 0 then map[] else map[22 := Row(now + health * 1000, 0, health * 1000)])
  }

  function Acquire(s: Ref, m: Envelope, owner: (Peer, Text16), now: nat): Ref
    requires m.configure.Some? && ConfigurationValid(m.configure.value)
  {
    s.(counters := NONE_COUNTED, activeSendErrors := {}, owner := Some(owner), config := m.configure,
       schedules := Rows(m.configure.value, now))
  }

  function Perform(s: Ref, m: Envelope, owner: (Peer, Text16), now: nat): Ref
    requires Consistent(s) && m.kind.Some? && m.requestId.Some? && (m.kind == Some(2) ==> m.configure.Some?)
    requires Assess(s, m, owner) in {1, 3}
  {
    var acquired := if m.kind == Some(2) then Acquire(s, m, owner, now) else s;
    var noted := acquired.(counters := acquired.counters.(received := Raised(acquired.counters.received, 1)),
                           lastControl := Some(m));
    if m.kind == Some(4) then End(noted)
    else noted.(expiry := now + noted.config.value.leaseMs.value * 1_000_000)
  }

  function Remaining(s: Ref, m: Envelope, owner: (Peer, Text16), now: nat): u32
    requires Consistent(s) && s.lastTime <= now
  {
    if s.owner == Some(owner) && m.runEpoch == Some(s.epoch) then SaturatingSub(s.expiry, now) / 1_000_000 else 0
  }

  /** What the caller's decoder guarantees about a message. */
  predicate Decoded(s: Ref, m: Envelope) {
    Validate(m, s.encoding, s.crc).Ok?
  }

  predicate Expected(s: Ref, m: Envelope)
    requires Decoded(s, m)
  {
    1 <= m.kind.value <= 5 && m.deviceId == Some(s.device) && (m.kind != Some(1) ==> m.bootId == Some(s.boot))
  }

  /** New state and reply, before the floating-point reply limiter, from a ticked state. */
  function Respond(s: Ref, m: Envelope, peer: Peer, now: nat): (Ref, Option<Envelope>)
    requires Consistent(s) && Decoded(s, m) && s.start <= s.lastTime == now
  {
    if !Expected(s, m) then (Reject(s), None)
    else
      var owner := (peer, m.sessionId.value);
      if m.kind == Some(1) then
        (s, Some(Header(s, owner.1, 11, now).(
                   requestId := m.requestId,
                   limits := Some(Advertised(s.encoding, s.crc, s.owner.None? && !s.exhausted)))))
      else if m.kind == Some(5) then
        if s.owner != Some(owner) || m.runEpoch != Some(s.epoch) ||
           m.payload != BenchmarkSpec.Pattern(s.config.value.payloadBytes.value, s.config.value.patternSeed.value,
                                              m.requestId.value)
        then (Reject(s), None)
        else (s.(counters := s.counters.(received := Raised(s.counters.received, 1))),
              Some(Header(s, owner.1, 15, now).(
                     requestId := m.requestId, payload := m.payload, probeResponse := Some(Empty.Empty))))
      else
        var code := Assess(s, m, owner);
        if code in {1, 3} then
          PerformConsistent(s, m, owner, now);
          Answer(Perform(s, m, owner, now), m, owner, code, now)
        else Answer(if code == 2 then s else Reject(s), m, owner, code, now)
  }

  function Answer(after: Ref, m: Envelope, owner: (Peer, Text16), code: i32, now: nat): (Ref, Option<Envelope>)
    requires Consistent(after) && after.start <= after.lastTime == now
  {
    (after, Some(Header(after, owner.1, 12, now).(
                   runEpoch := m.runEpoch, requestId := m.requestId,
                   result := Some(ControlResult(Some(code), Some(Remaining(after, m, owner, now)))))))
  }

  function Report(s: Ref): Health
    requires Consistent(s)
  {
    Health(Some(if s.activeSendErrors != {} then 2 else 1), Some(s.counters.received), Some(s.counters.rejected),
           Some(s.counters.sendErrors), Some(s.counters.skipped))
  }

  /** Moves a due row past every slot that is due. */
  function AdvanceRow(s: Ref, kind: i32, now: nat): (Ref, u32)
    requires Consistent(s) && kind in s.schedules && s.schedules[kind].due <= now
  {
    var row := s.schedules[kind];
    DivisionBounds(now - row.due, row.period);
    var skipped := (now - row.due) / row.period;
    var sequence := Wrap32(row.sequence + skipped);
    (s.(counters := s.counters.(skipped := Raised(s.counters.skipped, skipped)),
        schedules := s.schedules[kind := Row(row.due + (skipped + 1) * row.period, Wrap32(sequence + 1), row.period)]),
     sequence)
  }

  /** One pass over one row of the schedules. */
  function PublishRow(s: Ref, kind: i32, now: nat): (Ref, seq<Envelope>)
    requires Consistent(s) && kind in {21, 22} && s.start <= s.lastTime == now
  {
    if kind !in s.schedules || now < s.schedules[kind].due then (s, [])
    else
      var (after, sequence) := AdvanceRow(s, kind, now);
      AdvanceRowConsistent(s, kind, now);
      (after, [Message(after, kind, sequence, now)])
  }

  lemma AdvanceRowConsistent(s: Ref, kind: i32, now: nat)
    requires Consistent(s) && kind in s.schedules && s.schedules[kind].due <= now
    ensures var after := AdvanceRow(s, kind, now).0;
            Consistent(after) && after.owner == s.owner && (after.start, after.lastTime) == (s.start, s.lastTime)
  {
  }

  function Message(s: Ref, kind: i32, sequence: u32, now: nat): Envelope
    requires Consistent(s) && s.owner.Some? && s.start <= now
  {
    var base := Header(s, s.owner.value.1, kind, now).(
      sequence := Some(sequence),
      payload := BenchmarkSpec.Pattern(s.config.value.payloadBytes.value, s.config.value.patternSeed.value, sequence));
    if kind == 21 then base.(status := Some(Status(Some(0x41C8_0000), Some(1), Some(true))))
    else base.(health := Some(Report(s)))
  }

  lemma TickConsistent(s: Ref, now: nat)
    requires Consistent(s) && s.lastTime <= now
    ensures Consistent(Tick(s, now)) && Tick(s, now).lastTime == now && Tick(s, now).start == s.start
  {
  }

  lemma PerformConsistent(s: Ref, m: Envelope, owner: (Peer, Text16), now: nat)
    requires Consistent(s) && m.kind.Some? && m.requestId.Some? && (m.kind == Some(2) ==> m.configure.Some?)
    requires Assess(s, m, owner) in {1, 3} && s.lastTime == now
    ensures Consistent(Perform(s, m, owner, now)) && Perform(s, m, owner, now).lastTime == now
  {
  }

  lemma RespondConsistent(s: Ref, m: Envelope, peer: Peer, now: nat)
    requires Consistent(s) && Decoded(s, m) && s.start <= s.lastTime == now
    ensures Consistent(Respond(s, m, peer, now).0)
  {
    if Expected(s, m) && 2 <= m.kind.value <= 4 {
      var owner := (peer, m.sessionId.value);
      if Assess(s, m, owner) in {1, 3} {
        PerformConsistent(s, m, owner, now);
      }
    }
  }

  lemma PublishRowConsistent(s: Ref, kind: i32, now: nat)
    requires Consistent(s) && kind in {21, 22} && s.start <= s.lastTime == now
    ensures Consistent(PublishRow(s, kind, now).0) && PublishRow(s, kind, now).0.start == s.start &&
            PublishRow(s, kind, now).0.lastTime == now
  {
  }

  /** Handle a decoded message; the clock has been checked not to step back. */
  function Handle(s: Ref, m: Envelope, peer: Peer, now: nat): (Ref, Option<Envelope>)
    requires Consistent(s) && Decoded(s, m) && s.start <= s.lastTime <= now
  {
    TickConsistent(s, now);
    Respond(Tick(s, now), m, peer, now)
  }

  /** All publications that are due: status before health, as the rows were inserted. */
  function Publications(s: Ref, now: nat): (Ref, seq<Envelope>)
    requires Consistent(s) && s.start <= s.lastTime <= now
  {
    TickConsistent(s, now);
    var (first, status) := PublishRow(Tick(s, now), 21, now);
    PublishRowConsistent(Tick(s, now), 21, now);
    var (second, health) := PublishRow(first, 22, now);
    (second, status + health)
  }
}
