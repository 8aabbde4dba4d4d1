/** The host service object: dictionaries and counters updated in place, an explicit clock, no I/O. */
module ReferenceService {
  import opened Machine
  import opened Messages
  import opened Benchmark
  import BenchmarkSpec
  import Spec = ReferenceSpec

  datatype ClockError = ClockRollback

  class Service {
    const device: Text32
    const boot: Text16
    const encoding: Format
    const crc: CrcMode
    const start: nat
    var lastTime: nat
    var epoch: u32
    var exhausted: bool
    var owner: Option<(Spec.Peer, Text16)>
    var config: Option<Configuration>
    var lastControl: Option<Envelope>
    var expiry: nat
    var schedules: map<i32, Spec.Row>
    var counters: Spec.Counts
    var activeSendErrors: set<i32>

    ghost function Snapshot(): Spec.Ref
      reads this
    {
      Spec.Ref(device, boot, encoding, crc, start, lastTime, epoch, exhausted, owner, config, lastControl, expiry,
               schedules, counters, activeSendErrors)
    }

    ghost predicate Valid()
      reads this
    {
      Spec.Consistent(Snapshot()) && start <= lastTime
    }

    constructor (device: Text32, boot: Text16, encoding: Format, crc: CrcMode, start: nat)
      ensures Valid() && this.start == lastTime == start && epoch == 1 && !exhausted && owner.None?
      ensures Snapshot() == Spec.Ref(device, boot, encoding, crc, start, start, 1, false, None, None, None, 0, map[],
                                     Spec.NONE_COUNTED, {})
    {
      this.device, this.boot, this.encoding, this.crc := device, boot, encoding, crc;
      this.start, lastTime := start, start;
      epoch, exhausted := 1, false;
      owner, config, lastControl := None, None, None;
      expiry, schedules := 0, map[];
      counters, activeSendErrors := Spec.NONE_COUNTED, {};
    }

    method Sent(kind: i32, success: bool)
      requires Valid()
      modifies this`counters, this`activeSendErrors
      ensures Valid() && Snapshot() == Spec.Sent(old(Snapshot()), kind, success)
    {
      if success {
        activeSendErrors := activeSendErrors - {kind};
      } else {
        activeSendErrors := activeSendErrors + {kind};
        counters := counters.(sendErrors := Min(U32_MAX, counters.sendErrors + 1));
      }
    }

    method End()
      modifies this
      ensures Snapshot() == Spec.End(old(Snapshot())) && (old(Valid()) ==> Valid())
    {
      if owner.Some? {
        owner, config, lastControl := None, None, None;
        schedules := map[];
        if epoch == U32_MAX {
          exhausted := true;
        } else {
          epoch := epoch + 1;
        }
      }
    }

    /** A clock that steps back is an error, and changes nothing. */
    method Tick(now: nat) returns (r: Result<(), ClockError>)
      requires Valid()
      modifies this
      ensures Valid() && (r.Err? <==> now < old(lastTime))
      ensures Snapshot() == if r.Err? then old(Snapshot()) else Spec.Tick(old(Snapshot()), now)
    {
      if now < lastTime {
        return Err(ClockRollback);
      }
      lastTime := now;
      if owner.Some? && now >= expiry {
        End();
      }
      r := Ok(());
    }

    method Reject()
      requires Valid()
      modifies this`counters
      ensures Valid() && Snapshot() == Spec.Reject(old(Snapshot()))
    {
      if owner.Some? {
        counters := counters.(rejected := Min(U32_MAX, counters.rejected + 1));
      }
    }

    /** Decides one control message and applies it if it is accepted. */
    method Control(m: Envelope, source: (Spec.Peer, Text16), now: nat) returns (code: i32)
      requires Valid() && lastTime == now && m.requestId.Some? && m.kind in {Some(2), Some(3), Some(4)}
      requires m.kind == Some(2) ==> m.configure.Some?
      modifies this
      ensures Valid() && lastTime == now && code == Spec.Assess(old(Snapshot()), m, source)
      ensures Snapshot() ==
              if code in {1, 3} then Spec.Perform(old(Snapshot()), m, source, now) else old(Snapshot())
    {
      var id := m.requestId.value;
      if m.runEpoch != Some(epoch) {
        code := 6;
      } else if exhausted {
        code := 10;
      } else if owner.Some? && owner != Some(source) {
        code := 5;
      } else if lastControl.Some? && id == lastControl.value.requestId.value {
        code := if m == lastControl.value then 2 else 8;
      } else if lastControl.Some? && id < lastControl.value.requestId.value {
        code := 7;
      } else if m.kind == Some(2) && !ConfigurationValid(m.configure.value) {
        code := 4;
      } else if m.kind == Some(2) && owner.Some? {
        code := 5;
      } else if m.kind in {Some(3), Some(4)} && owner.None? {
        code := 9;
      } else {
        Spec.PerformConsistent(Snapshot(), m, source, now);
        code := if m.kind == Some(4) then 3 else 1;
        if m.kind == Some(2) {
          counters, activeSendErrors := Spec.NONE_COUNTED, {};
          owner, config := Some(source), m.configure;
          schedules := Spec.Rows(m.configure.value, now);
        }
        counters := counters.(received := Min(U32_MAX, counters.received + 1));
        lastControl := Some(m);
        if m.kind == Some(4) {
          End();
        } else {
          expiry := now + config.value.leaseMs.value * 1_000_000;
        }
      }
    }

    method Handle(m: Envelope, peer: Spec.Peer, now: nat) returns (r: Result<Option<Envelope>, ClockError>)
      requires Valid() && Validate(m, encoding, crc).Ok?
      modifies this
      ensures Valid() && (r.Err? <==> now < old(lastTime))
      ensures r.Err? ==> Snapshot() == old(Snapshot())
      ensures r.Ok? ==> Snapshot() == Spec.Handle(old(Snapshot()), m, peer, now).0
      ensures r.Ok? ==> r.value == Spec.Handle(old(Snapshot()), m, peer, now).1
    {
      var ticked := Tick(now);
      if ticked.Err? {
        return Err(ticked.error);
      }
      Spec.TickConsistent(old(Snapshot()), now);
      var answer := Answer(m, peer, now);
      r := Ok(answer);
    }

    /** Answers a probe of the current run that carries the configured pattern. */
    method Echo(m: Envelope, source: (Spec.Peer, Text16), now: nat) returns (reply: Option<Envelope>)
      requires Valid() && start <= now && m.requestId.Some?
      modifies this`counters
      ensures var before := old(Snapshot());
              var accepted := before.owner == Some(source) && m.runEpoch == Some(before.epoch) &&
                m.payload == BenchmarkSpec.Pattern(before.config.value.payloadBytes.value,
                                                   before.config.value.patternSeed.value, m.requestId.value);
              if accepted then
                Snapshot() == before.(counters := before.counters.(
                                        received := Spec.Raised(before.counters.received, 1))) &&
                reply == Some(Spec.Header(before, source.1, 15, now).(
                                requestId := m.requestId, payload := m.payload, probeResponse := Some(Empty.Empty)))
              else Snapshot() == Spec.Reject(before) && reply.None?
    {
      if owner != Some(source) || m.runEpoch != Some(epoch) ||
         m.payload != BenchmarkSpec.Pattern(config.value.payloadBytes.value, config.value.patternSeed.value,
                                            m.requestId.value) {
        Reject();
        return None;
      }
      counters := counters.(received := Min(U32_MAX, counters.received + 1));
      var out := Header(source.1, 15, now);
      reply := Some(out.(requestId := m.requestId, payload := m.payload, probeResponse := Some(Empty.Empty)));
    }

    method Answer(m: Envelope, peer: Spec.Peer, now: nat) returns (reply: Option<Envelope>)
      requires Valid() && lastTime == now && Validate(m, encoding, crc).Ok?
      modifies this
      ensures Valid() && Snapshot() == Spec.Respond(old(Snapshot()), m, peer, now).0
      ensures reply == Spec.Respond(old(Snapshot()), m, peer, now).1
    {
      hide Spec.Perform, Spec.Assess, Spec.Reject;
      Spec.RespondConsistent(Snapshot(), m, peer, now);
      var kind := m.kind.value;
      if !(1 <= kind <= 5) || m.deviceId != Some(device) || (kind != 1 && m.bootId != Some(boot)) {
        Reject();
        return None;
      }
      var source := (peer, m.sessionId.value);
      if kind == 1 {
        var out := Header(source.1, 11, now);
        out := out.(requestId := m.requestId, limits := Some(Advertised(encoding, crc, owner.None? && !exhausted)));
        reply := Some(out);
      } else if kind == 5 {
        reply := Echo(m, source, now);
      } else {
        var code := Control(m, source, now);
        if code !in {1, 2, 3} {
          Reject();
        }
        var remaining: u32 := 0;
        if owner == Some(source) && m.runEpoch == Some(epoch) {
          remaining := SaturatingSub(expiry, now) / 1_000_000;
        }
        var out := Header(source.1, 12, now);
        out := out.(runEpoch := m.runEpoch, requestId := m.requestId,
                    result := Some(ControlResult(Some(code), Some(remaining))));
        reply := Some(out);
      }
    }

    function Header(session: Text16, kind: i32, now: nat): (m: Envelope)
      requires start <= now
      reads this
      ensures m == Spec.Header(Snapshot(), session, kind, now)
    {
      BLANK.(protocolVersion := Some(1), kind := Some(kind), deviceId := Some(device), bootId := Some(boot),
             sessionId := Some(session), runEpoch := Some(epoch),
             uptimeMs := Some(Wrap32((now - start) / 1_000_000)))
    }

    method Message(kind: i32, sequence: u32, now: nat) returns (message: Envelope)
      requires Valid() && owner.Some? && kind in {21, 22} && start <= now
      ensures message == Spec.Message(Snapshot(), kind, sequence, now)
    {
      message := Header(owner.value.1, kind, now);
      message := message.(
        sequence := Some(sequence),
        payload := BenchmarkSpec.Pattern(config.value.payloadBytes.value, config.value.patternSeed.value, sequence));
      if kind == 21 {
        message := message.(status := Some(Status.Status(Some(0x41C8_0000), Some(1), Some(true))));
      } else {
        message := message.(health := Some(Health(
          Some(if activeSendErrors != {} then 2 else 1), Some(counters.received), Some(counters.rejected),
          Some(counters.sendErrors), Some(counters.skipped))));
      }
    }

    /** Publishes whatever is due, updating the rows in place. */
    method Publications(now: nat) returns (r: Result<seq<Envelope>, ClockError>)
      requires Valid()
      modifies this
      ensures Valid() && (r.Err? <==> now < old(lastTime))
      ensures r.Err? ==> Snapshot() == old(Snapshot())
      ensures r.Ok? ==> Snapshot() == Spec.Publications(old(Snapshot()), now).0
      ensures r.Ok? ==> r.value == Spec.Publications(old(Snapshot()), now).1
    {
      var ticked := Tick(now);
      if ticked.Err? {
        return Err(ticked.error);
      }
      Spec.TickConsistent(old(Snapshot()), now);
      var status := PublishRow(21, now);
      var health := PublishRow(22, now);
      r := Ok(status + health);
    }

    method AdvanceRow(kind: i32, now: nat) returns (sequence: u32)
      requires Valid() && kind in schedules && schedules[kind].due <= now
      modifies this`counters, this`schedules
      ensures Snapshot() == Spec.AdvanceRow(old(Snapshot()), kind, now).0
      ensures sequence == Spec.AdvanceRow(old(Snapshot()), kind, now).1
    {
      var row := schedules[kind];
      DivisionBounds(now - row.due, row.period);
      var skipped := (now - row.due) / row.period;
      counters := counters.(skipped := Min(U32_MAX, counters.skipped + skipped));
      sequence := Wrap32(row.sequence + skipped);
      var next: nat := sequence + 1;
      schedules := schedules[kind := Spec.Row(row.due + (skipped + 1) * row.period, Wrap32(next), row.period)];
    }

    method PublishRow(kind: i32, now: nat) returns (output: seq<Envelope>)
      requires Valid() && lastTime == now && kind in {21, 22}
      modifies this`counters, this`schedules
      ensures Valid() && Snapshot() == Spec.PublishRow(old(Snapshot()), kind, now).0
      ensures output == Spec.PublishRow(old(Snapshot()), kind, now).1
    {
      hide Spec.Message, Spec.Report;
      Spec.PublishRowConsistent(Snapshot(), kind, now);
      if kind !in schedules || now < schedules[kind].due {
        return [];
      }
      Spec.AdvanceRowConsistent(Snapshot(), kind, now);
      var sequence := AdvanceRow(kind, now);
      var message := Message(kind, sequence, now);
      output := [message];
    }
  }
}
