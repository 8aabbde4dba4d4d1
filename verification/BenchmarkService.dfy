/** The benchmark service object: every method is proved against the value state machine. */
module BenchmarkService {
  import opened Machine
  import opened Messages
  import opened Benchmark
  import Spec = BenchmarkSpec

  /** Fills the payload symbol by symbol. */
  method Pattern(length: u32, seed: u32, token: u32) returns (payload: Option<Text512>)
    ensures payload == Spec.Pattern(length, seed, token)
  {
    if length > 512 {
      return None;
    }
    var text: Text := [];
    for i := 0 to length
      invariant |text| == i
      invariant forall k :: 0 <= k < i ==> text[k] == Spec.Symbol((seed % 62 + token % 62 + k) % 62)
    {
      text := text + [Spec.Symbol((seed % 62 + token % 62 + i) % 62)];
    }
    assert text == Spec.Pattern(length, seed, token).value;
    payload := Some(text);
  }

  class Service {
    const device: Text32
    const boot: Text16
    const format: Format
    const crc: CrcMode
    var epoch: u32
    var exhausted: bool
    var lease: Option<Spec.Lease>
    var schedules: Spec.Schedules
    var tokens: nat
    var tokenTime: u64
    var lastTime: u64
    var counters: Spec.Counters
    var suppressed: u32

    ghost function Snapshot(): Spec.State
      reads this
    {
      Spec.State(device, boot, format, crc, epoch, exhausted, lease, schedules,
                 tokens, tokenTime, lastTime, counters, suppressed)
    }

    ghost predicate Valid()
      reads this
    {
      Spec.Wf(Snapshot())
    }

    constructor (device: Text32, boot: Text16, format: Format, crc: CrcMode, now: u64)
      ensures Valid() && Snapshot() == Spec.Initial(device, boot, format, crc, now)
    {
      this.device, this.boot, this.format, this.crc := device, boot, format, crc;
      epoch, exhausted, lease, schedules := 1, false, None, Spec.STOPPED;
      tokens, tokenTime, lastTime := 10, now, now;
      counters, suppressed := Spec.ZERO, 0;
    }

    /** Terminates the run once; its epoch is never used again. */
    method End()
      modifies this
      ensures Snapshot() == Spec.End(old(Snapshot()))
      ensures old(Valid()) ==> Valid()
    {
      if lease.Some? {
        lease := None;
        schedules := Spec.STOPPED;
        if epoch == U32_MAX {
          exhausted := true;
        } else {
          epoch := epoch + 1;
        }
      }
    }

    method Tick(now: u64)
      requires Valid()
      modifies this
      ensures Valid() && Snapshot() == Spec.Tick(old(Snapshot()), now)
    {
      if now < lastTime {
        End();
        tokenTime := now;
      }
      lastTime := now;
      if lease.Some? && now >= lease.value.expiry {
        End();
      }
      var refill := SaturatingSub(now, tokenTime) / 100_000;
      if refill > 0 {
        tokens := Min(tokens + Min(refill, 10), 10);
        tokenTime := now - SaturatingSub(now, tokenTime) % 100_000;
      }
    }

    method Reject(crcFailed: bool)
      requires Valid()
      modifies this`counters
      ensures Valid() && Snapshot() == Spec.Reject(old(Snapshot()), crcFailed)
    {
      if lease.Some? {
        counters := counters.(rejected := SaturatingAdd32(counters.rejected, 1));
        if crcFailed {
          counters := counters.(crcRejections := SaturatingAdd32(counters.crcRejections, 1));
        }
      }
    }

    function Base(session: Text16, kind: i32, now: u64): (m: Envelope)
      reads this
      ensures m == Spec.Base(Snapshot(), session, kind, now)
    {
      BLANK.(protocolVersion := Some(1), kind := Some(kind), deviceId := Some(device), bootId := Some(boot),
             sessionId := Some(session), runEpoch := Some(epoch), uptimeMs := Some(Wrap32(now / 1000)))
    }

    method Sent(socket: nat, success: bool)
      requires Valid() && socket < 3
      modifies this`counters
      ensures Valid() && Snapshot() == old(Snapshot()).(counters := old(counters).Sent(socket, success))
    {
      counters := counters.(active := counters.active[socket := !success]);
      if !success {
        counters := counters.(sendErrors := SaturatingAdd32(counters.sendErrors, 1));
      }
    }

    method Skip(amount: nat)
      requires Valid()
      modifies this`counters
      ensures Valid() && Snapshot() == old(Snapshot()).(counters := old(counters).Skip(amount))
    {
      counters := counters.(skipped := SaturatingAdd32(counters.skipped, Min(amount, U32_MAX)));
    }

    method Handle(request: Envelope, peer: Spec.Peer, now: u64) returns (answer: Option<Envelope>)
      requires Valid()
      modifies this
      ensures Valid() && Snapshot() == Spec.Handle(old(Snapshot()), request, peer, now).0
      ensures answer == Spec.Handle(old(Snapshot()), request, peer, now).1
    {
      Spec.HandleWf(Snapshot(), request, peer, now);
      Tick(now);
      var limited, reply := Respond(request, peer, now);
      if !limited {
        answer := reply;
      } else if tokens == 0 {
        suppressed := SaturatingAdd32(suppressed, 1);
        answer := None;
      } else {
        tokens := tokens - 1;
        answer := reply;
      }
    }

    /** The reply before the limiter, and whether the limiter applies to it. */
    method Respond(request: Envelope, peer: Spec.Peer, now: u64) returns (limited: bool, reply: Option<Envelope>)
      requires Valid() && lastTime == now
      modifies this
      ensures Valid() && Snapshot() == Spec.Respond(old(Snapshot()), request, peer, now).0
      ensures reply == Spec.Respond(old(Snapshot()), request, peer, now).1
      ensures limited <==> Spec.Judge(old(Snapshot()), request, peer) !in {Spec.Ignored, Spec.Probe}
    {
      Spec.RespondWf(Snapshot(), request, peer, now);
      if Validate(request, format, crc).Err? || request.deviceId != Some(device) || !(1 <= request.kind.value <= 5) ||
         (request.kind != Some(1) && request.bootId != Some(boot)) {
        Reject(false);
        return false, None;
      }
      var kind, session, id := request.kind.value, request.sessionId.value, request.requestId.value;
      var owner := lease.Some? && lease.value.peer == peer && lease.value.session == session;
      if kind == 1 {
        var out := Base(session, 11, now);
        out := out.(limits := Some(Advertised(format, crc, lease.None? && !exhausted)), requestId := Some(id));
        return true, Some(out);
      } else if kind == 5 {
        reply := Echo(request, owner, now);
        return false, reply;
      } else {
        var code := Control(request, peer, owner, now);
        if code !in {1, 2, 3} {
          Reject(false);
        }
        var remaining: u32 := 0;
        if lease.Some? && lease.value.peer == peer && lease.value.session == session &&
           request.runEpoch == Some(epoch) {
          remaining := Wrap32(SaturatingSub(lease.value.expiry, now) / 1000);
        }
        var out := Base(session, 12, now);
        out := out.(runEpoch := request.runEpoch, requestId := Some(id),
                    result := Some(ControlResult(Some(code), Some(remaining))));
        return true, Some(out);
      }
    }

    /** Answers a probe of the current run that carries the configured pattern. */
    method Echo(request: Envelope, owner: bool, now: u64) returns (reply: Option<Envelope>)
      requires Valid() && Spec.Addressed(Snapshot(), request) && request.kind == Some(5)
      requires owner ==> lease.Some?
      modifies this`counters
      ensures var before := old(Snapshot());
              var accepted := owner && request.runEpoch == Some(before.epoch) &&
                request.payload == Spec.Pattern(before.lease.value.configuration.payloadBytes.value,
                                                before.lease.value.configuration.patternSeed.value,
                                                request.requestId.value);
              if accepted then
                Snapshot() == before.(counters := before.counters.Accept()) &&
                reply == Some(Spec.Base(before, request.sessionId.value, 15, now).(
                                payload := request.payload, probeResponse := Some(Empty.Empty),
                                requestId := request.requestId))
              else Snapshot() == Spec.Reject(before, false) && reply.None?
    {
      if !owner || request.runEpoch != Some(epoch) {
        Reject(false);
        return None;
      }
      var config := lease.value.configuration;
      var expected := Pattern(config.payloadBytes.value, config.patternSeed.value, request.requestId.value);
      if request.payload != expected {
        Reject(false);
        return None;
      }
      counters := counters.(received := SaturatingAdd32(counters.received, 1));
      var out := Base(request.sessionId.value, 15, now);
      reply := Some(out.(payload := request.payload, probeResponse := Some(Empty.Empty),
                         requestId := request.requestId));
    }

    /** Installs the lease of an accepted configure request and starts its schedules. */
    method Acquire(request: Envelope, peer: Spec.Peer, now: u64)
      requires request.configure.Some? && Complete(request.configure.value) && request.sessionId.Some?
      requires request.kind.Some? && request.requestId.Some?
      modifies this
      ensures Snapshot() == Spec.Acquire(old(Snapshot()), request, peer, now)
    {
      var config := request.configure.value;
      var periods := [config.statusPeriodUs.value, config.healthPeriodUs.value];
      for index := 0 to 2
        invariant Snapshot() == old(Snapshot()).(schedules := schedules)
        invariant forall k :: 0 <= k < index ==> schedules[k] == Spec.FirstSlot(periods[k], now)
      {
        schedules := schedules[index := Spec.Publication(SaturatingAdd64(now, periods[index]), periods[index], 0)];
      }
      counters := Spec.ZERO;
      lease := Some(Spec.Lease(peer, request.sessionId.value, config, Spec.ControlOf(request), 0));
    }

    /** Decides one control request and applies it if it is accepted. */
    method Control(request: Envelope, peer: Spec.Peer, owner: bool, now: u64) returns (code: i32)
      requires Valid() && lastTime == now && Spec.Addressed(Snapshot(), request) && 2 <= request.kind.value <= 4
      requires owner == Snapshot().Owner(peer, request.sessionId.value)
      modifies this
      ensures Valid() && code == Spec.Assess(old(Snapshot()), request, peer)
      ensures Snapshot() ==
              if code in {1, 3} then Spec.Perform(old(Snapshot()), request, peer, now) else old(Snapshot())
    {
      var kind, id := request.kind.value, request.requestId.value;
      var control := Spec.Control(kind, id, request.configure);
      if request.runEpoch != Some(epoch) {
        code := 6;
      } else if exhausted {
        code := 10;
      } else if lease.Some? && !owner {
        code := 5;
      } else if lease.Some? && lease.value.last.id == id {
        code := if lease.value.last == control then 2 else 8;
      } else if lease.Some? && id < lease.value.last.id {
        code := 7;
      } else if kind == 2 && !ConfigurationValid(request.configure.value) {
        code := 4;
      } else if kind == 2 && lease.Some? {
        code := 5;
      } else if kind != 2 && lease.None? {
        code := 9;
      } else {
        Spec.PerformWf(Snapshot(), request, peer, now);
        if kind == 2 {
          Acquire(request, peer, now);
        }
        counters := counters.(received := SaturatingAdd32(counters.received, 1));
        if kind == 4 {
          End();
          code := 3;
        } else {
          lease := Some(lease.value.(
            last := control,
            expiry := SaturatingAdd64(now, lease.value.configuration.leaseMs.value * 1000)));
          code := 1;
        }
      }
    }

    /** Moves one schedule past every slot that is due, counting those that were missed. */
    method Advance(index: nat, now: u64) returns (sequence: u32)
      requires index < 2 && schedules[index].period > 0 && schedules[index].due <= now
      modifies this`schedules, this`counters
      ensures var slot := Spec.TakeSlot(old(schedules)[index], now);
              sequence == slot.sequence && schedules == old(schedules)[index := slot.next] &&
              counters == old(counters).Skip(slot.skipped)
    {
      var schedule := schedules[index];
      DivisionBounds(now - schedule.due, schedule.period);
      var skipped := (now - schedule.due) / schedule.period;
      sequence := Wrap32(schedule.sequence + Wrap32(skipped));
      var due := SaturatingAdd64(now, schedule.period - (now - schedule.due) % schedule.period);
      var next: nat := sequence + 1;
      schedules := schedules[index := schedule.(sequence := Wrap32(next), due := due)];
      counters := counters.Skip(skipped);
    }

    /** At most the newest due sample of one stream; missed slots are skipped. */
    method Publication(index: nat, now: u64) returns (sample: Option<Envelope>)
      requires Valid()
      modifies this
      ensures Valid() && Snapshot() == Spec.Poll(old(Snapshot()), index, now).0
      ensures sample == Spec.Poll(old(Snapshot()), index, now).1
    {
      Spec.PollWf(Snapshot(), index, now);
      Tick(now);
      if lease.None? || index >= 2 {
        return None;
      }
      if schedules[index].period == 0 || now < schedules[index].due {
        return None;
      }
      var sequence := Advance(index, now);
      var config := lease.value.configuration;
      var payload := Pattern(config.payloadBytes.value, config.patternSeed.value, sequence);
      var message := Base(lease.value.session, 21 + index, now);
      message := message.(sequence := Some(sequence), payload := payload);
      if index == 0 {
        message := message.(status := Some(Status.Status(Some(0x41C8_0000), Some(1), Some(true))));
      } else {
        message := message.(health := Some(counters.Report()));
      }
      sample := Some(message);
    }
  }
}
