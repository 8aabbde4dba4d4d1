/** Which commands are accepted, ignored, or answered with an error, and how often errors are sent. */
module CommandPolicy {
  import opened Machine
  import opened Messages
  import opened Messaging

  datatype Decision = Accept | Error(code: i32) | Ignore | RateLimited
  datatype Assessment = Assessment(decision: Decision, rejection: Option<CodecError>)

  const BURST := 1000
  const COST := 100

  datatype Policy = Policy(credits: u64, updated: u64)

  predicate Request(m: Envelope) {
    m.kind in {Some(1), Some(2), Some(3)}
  }

  predicate Acceptable(m: Envelope, format: Format, device: Text) {
    Validate(m, format).Ok? && Request(m) && m.deviceId.Some? && m.deviceId.value == device
  }

  /** A rejected message that can be answered: addressed here, correlatable, and not itself an answer. */
  predicate Answerable(m: Envelope, device: Text) {
    m.deviceId.Some? && m.deviceId.value == device && Correlation(m) &&
    m.kind !in {Some(11), Some(12), Some(13), Some(14), Some(21), Some(22)}
  }

  function Credit(p: Policy, now: u64): u64 {
    Min(SaturatingAdd64(p.credits, SaturatingSub(now, p.updated)), BURST)
  }

  function Assessed(p: Policy, m: Envelope, format: Format, device: Text, now: u64): (Policy, Assessment) {
    if Acceptable(m, format, device) then (p, Assessment(Accept, None))
    else
      var rejection := match Validate(m, format) case Err(e) => e case Ok(_) => Validation;
      if !Answerable(m, device) then (p, Assessment(Ignore, Some(rejection)))
      else if Credit(p, now) < COST then
        (Policy(Credit(p, now), now), Assessment(RateLimited, Some(rejection)))
      else
        (Policy(Credit(p, now) - COST, now),
         Assessment(Decision.Error(if m.kind.Some? && !Request(m) then 1 else 2), Some(rejection)))
  }

  class CommandPolicy {
    var creditsMs: u64
    var updatedMs: u64

    ghost function Snapshot(): Policy
      reads this
    {
      Policy(creditsMs, updatedMs)
    }

    constructor (nowMs: u64)
      ensures Snapshot() == Policy(BURST, nowMs)
    {
      creditsMs, updatedMs := BURST, nowMs;
    }

    method Assess(request: Envelope, format: Format, device: Text, nowMs: u64) returns (a: Assessment)
      modifies this
      ensures Snapshot() == Assessed(old(Snapshot()), request, format, device, nowMs).0
      ensures a == Assessed(old(Snapshot()), request, format, device, nowMs).1
    {
      var validity := Validate(request, format);
      var isRequest := request.kind.Some? && 1 <= request.kind.value <= 3;
      var target := request.deviceId.Some? && request.deviceId.value == device;
      if validity.Ok? && isRequest && target {
        return Assessment(Accept, None);
      }
      var rejection := if validity.Err? then validity.error else Validation;
      var decision: Decision;
      if !target || !Correlation(request) ||
         (request.kind.Some? && (11 <= request.kind.value <= 14 || request.kind.value in {21, 22})) {
        decision := Ignore;
      } else {
        creditsMs := Min(SaturatingAdd64(creditsMs, SaturatingSub(nowMs, updatedMs)), 1000);
        updatedMs := nowMs;
        if creditsMs < 100 {
          decision := RateLimited;
        } else {
          creditsMs := creditsMs - 100;
          decision := Decision.Error(if request.kind.Some? && !isRequest then 1 else 2);
        }
      }
      a := Assessment(decision, Some(rejection));
    }
  }

  /** A good command is accepted whatever the credit and the clock, and costs none of it. */
  lemma GoodCommandsAlwaysPass(p: Policy, m: Envelope, format: Format, device: Text, now: u64)
    ensures var (after, a) := Assessed(p, m, format, device, now);
            (a.decision == Accept <==> Acceptable(m, format, device)) &&
            (a.decision == Accept <==> a.rejection.None?) &&
            (a.decision in {Accept, Ignore} ==> after == p)
  {
  }

  /**
   * What every decision means. An error says 1 for a kind that is no request and 2 for a request, or no kind at all,
   * that is malformed; it goes only to a correlatable message for this device that is not itself an answer.
   */
  lemma DecisionsAreExact(p: Policy, m: Envelope, format: Format, device: Text, now: u64)
    ensures var a := Assessed(p, m, format, device, now).1;
            var request := m.kind.Some? && 1 <= m.kind.value <= 3;
            var answer := m.kind.Some? && (11 <= m.kind.value <= 14 || m.kind.value in {21, 22});
            var target := m.deviceId.Some? && m.deviceId.value == device;
            (a.decision == Decision.Error(1) ==> m.kind.Some? && !request) &&
            (a.decision == Decision.Error(2) ==> m.kind.None? || request) &&
            (a.decision.Error? ==> a.decision.code in {1, 2}) &&
            (a.decision == Accept <==> Validate(m, format).Ok? && request && target) &&
            (a.decision == Ignore <==> !target || (a.decision != Accept && (answer || !Correlation(m)))) &&
            (a.decision in {RateLimited, Decision.Error(1), Decision.Error(2)} <==>
               a.decision != Accept && target && Correlation(m) && !answer) &&
            (a.rejection.Some? && Validate(m, format).Err? ==> a.rejection.value == Validate(m, format).error) &&
            (a.rejection.Some? && Validate(m, format).Ok? ==> a.rejection.value == Validation)
  {
    hide Validate, Correlation, Credit;
  }

  // ---------------------------------------------------------------------
  // The error budget.

  datatype Call = Call(request: Envelope, now: u64)

  function Errors(p: Policy, calls: seq<Call>, format: Format, device: Text): nat
    decreases |calls|
  {
    if calls == [] then 0
    else
      var (after, a) := Assessed(p, calls[0].request, format, device, calls[0].now);
      (if a.decision.Error? then 1 else 0) + Errors(after, calls[1..], format, device)
  }

  function After(p: Policy, calls: seq<Call>, format: Format, device: Text): Policy
    decreases |calls|
  {
    if calls == [] then p
    else After(Assessed(p, calls[0].request, format, device, calls[0].now).0, calls[1..], format, device)
  }

  /** A message at fault: addressed here, correlatable, no answer, and yet no good command. */
  predicate Fault(m: Envelope, format: Format, device: Text) {
    Answerable(m, device) && !Acceptable(m, format, device)
  }

  function Faults(calls: seq<Call>, format: Format, device: Text): seq<Call>
    decreases |calls|
  {
    if calls == [] then []
    else
      (if Fault(calls[0].request, format, device) then [calls[0]] else []) +
      Faults(calls[1..], format, device)
  }

  /**
   * Whatever the clock does, only messages at fault are ever answered with an error or charged: good commands,
   * answers, and traffic for others can be left out of any series without changing the credit or the errors sent.
   */
  lemma {:induction false} OnlyFaultsAreCharged(p: Policy, calls: seq<Call>, format: Format, device: Text)
    ensures var faults := Faults(calls, format, device);
            After(p, calls, format, device) == After(p, faults, format, device) &&
            Errors(p, calls, format, device) == Errors(p, faults, format, device) <= |faults|
    decreases |calls|
  {
    if calls != [] {
      var rest := Faults(calls[1..], format, device);
      var after := Assessed(p, calls[0].request, format, device, calls[0].now).0;
      GoodCommandsAlwaysPass(p, calls[0].request, format, device, calls[0].now);
      hide Acceptable, Answerable, Validate;
      OnlyFaultsAreCharged(after, calls[1..], format, device);
      assert ([calls[0]] + rest)[0] == calls[0] && ([calls[0]] + rest)[1..] == rest && [] + rest == rest;
    }
  }

  predicate InOrder(from: u64, calls: seq<Call>)
    decreases |calls|
  {
    calls == [] || (from <= calls[0].now && InOrder(calls[0].now, calls[1..]))
  }

  function Last(from: u64, calls: seq<Call>): u64 {
    if calls == [] then from else calls[|calls| - 1].now
  }

  lemma {:induction false} ErrorsArePaid(p: Policy, calls: seq<Call>, format: Format, device: Text, from: u64)
    requires p.updated <= from && InOrder(from, calls)
    ensures COST * Errors(p, calls, format, device) <= Credit(p, from) + (Last(from, calls) - from)
    ensures from <= Last(from, calls)
    decreases |calls|
  {
    if calls != [] {
      var now := calls[0].now;
      var after := Assessed(p, calls[0].request, format, device, now).0;
      assert Credit(p, now) <= Credit(p, from) + (now - from);
      hide Acceptable, Answerable, Validate;
      ErrorsArePaid(after, calls[1..], format, device, now);
      assert Last(now, calls[1..]) == Last(from, calls);
    }
  }

  /** At most 10 + floor(W / 100) error replies in any window of W milliseconds on a clock that runs forward. */
  lemma ErrorRateIsBounded(p: Policy, calls: seq<Call>, format: Format, device: Text)
    requires calls != [] && p.updated <= calls[0].now && InOrder(calls[0].now, calls)
    ensures Errors(p, calls, format, device) <= 10 + (calls[|calls| - 1].now - calls[0].now) / 100
  {
    ErrorsArePaid(p, calls, format, device, calls[0].now);
  }

  // ---------------------------------------------------------------------
  // The error budget from below.

  lemma FaultsOfFirst(calls: seq<Call>, format: Format, device: Text)
    requires calls != []
    ensures |Faults(calls, format, device)| ==
            (if Fault(calls[0].request, format, device) then 1 else 0) + |Faults(calls[1..], format, device)|
  {
    hide Acceptable, Answerable;
  }

  /** A fault costs 100 of the credit and gets an error, or finds less than 100 and is withheld; nothing else costs. */
  lemma OneCall(p: Policy, m: Envelope, format: Format, device: Text, now: u64)
    ensures var (after, a) := Assessed(p, m, format, device, now);
            if !Fault(m, format, device) then after == p && a.decision in {Accept, Ignore}
            else
              after.updated == now && (a.decision.Error? || a.decision == RateLimited) &&
              (a.decision.Error? <==> Credit(p, now) >= 100) &&
              after.credits == Credit(p, now) - if a.decision.Error? then 100 else 0
  {
    hide Acceptable, Answerable, Validate, Credit;
  }

  lemma CreditGrows(p: Policy, from: u64, to: u64)
    requires p.updated <= from <= to
    ensures Credit(p, from) <= Credit(p, to) <= Credit(p, from) + (to - from) && Credit(p, to) <= 1000
    ensures Credit(p, to) < 1000 ==> Credit(p, to) == p.credits + (to - p.updated)
    ensures Credit(p, p.updated) == Min(p.credits, 1000)
  {
  }

  /** As long as the credit of a moment lasts, every fault from then on gets its error. */
  lemma {:induction false} CreditIsHonoured(p: Policy, calls: seq<Call>, format: Format, device: Text, from: u64)
    requires p.updated <= from && InOrder(from, calls) && 100 * |Faults(calls, format, device)| <= Credit(p, from)
    ensures Errors(p, calls, format, device) == |Faults(calls, format, device)|
    decreases |calls|
  {
    hide Fault, Credit, Assessed;
    if calls != [] {
      var (m, now) := (calls[0].request, calls[0].now);
      var after := Assessed(p, m, format, device, now).0;
      FaultsOfFirst(calls, format, device);
      OneCall(p, m, format, device, now);
      CreditGrows(p, from, now);
      CreditGrows(after, now, now);
      CreditIsHonoured(after, calls[1..], format, device, now);
    }
  }

  /** A fresh policy owes ten errors at once. */
  lemma FreshPolicyOwesTen(now: u64, calls: seq<Call>, format: Format, device: Text)
    requires InOrder(now, calls) && |Faults(calls, format, device)| <= 10
    ensures Errors(Policy(BURST, now), calls, format, device) == |Faults(calls, format, device)|
  {
    CreditIsHonoured(Policy(BURST, now), calls, format, device, now);
  }

  /** Since the start of the calls, errors have used up the credit of the start and all that has accrued since. */
  predicate AllSpent(p: Policy, calls: seq<Call>, format: Format, device: Text, now: u64) {
    Min(p.credits, 1000) + SaturatingSub(now, p.updated) < 100 * Errors(p, calls, format, device) + 100
  }

  /** Since some call that found the full credit, errors have used up that and all that has accrued since. */
  predicate SpentSinceFull(p: Policy, calls: seq<Call>, format: Format, device: Text, now: u64)
    decreases |calls|
  {
    calls != [] &&
    ((Credit(p, calls[0].now) == 1000 &&
      1000 + SaturatingSub(now, calls[0].now) < 100 * Errors(p, calls, format, device) + 100) ||
     SpentSinceFull(Assessed(p, calls[0].request, format, device, calls[0].now).0, calls[1..], format, device, now))
  }

  lemma {:induction false} CreditIsBounded(
    p: Policy, calls: seq<Call>, format: Format, device: Text, from: u64, now: u64)
    requires p.updated <= from && InOrder(from, calls) && Last(from, calls) <= now
    ensures from <= now && After(p, calls, format, device).updated <= now
    ensures 100 * Errors(p, calls, format, device) + Credit(After(p, calls, format, device), now)
         <= Credit(p, from) + (now - from)
    decreases |calls|
  {
    hide Fault, Credit, Assessed;
    if calls == [] {
      CreditGrows(p, from, now);
    } else {
      var (m, time) := (calls[0].request, calls[0].now);
      var after := Assessed(p, m, format, device, time).0;
      OneCall(p, m, format, device, time);
      assert Last(time, calls[1..]) == Last(from, calls);
      CreditIsBounded(after, calls[1..], format, device, time, now);
      CreditGrows(p, from, time);
      CreditGrows(after, time, time);
    }
  }

  lemma {:induction false} FullThenSpentIsShort(p: Policy, calls: seq<Call>, format: Format, device: Text, now: u64)
    requires calls != [] && p.updated <= calls[0].now && InOrder(calls[0].now, calls) && Last(0, calls) <= now
    requires SpentSinceFull(p, calls, format, device, now)
    ensures Credit(After(p, calls, format, device), now) < 100
    decreases |calls|
  {
    var (m, time) := (calls[0].request, calls[0].now);
    var after := Assessed(p, m, format, device, time).0;
    hide Fault, Credit, Assessed;
    OneCall(p, m, format, device, time);
    CreditIsBounded(p, calls, format, device, time, now);
    if SpentSinceFull(after, calls[1..], format, device, now) {
      FullThenSpentIsShort(after, calls[1..], format, device, now);
    }
  }

  lemma {:induction false} ShortIsSpent(p: Policy, calls: seq<Call>, format: Format, device: Text, now: u64)
    requires InOrder(p.updated, calls) && Last(p.updated, calls) <= now
    requires Credit(After(p, calls, format, device), now) < 100
    ensures AllSpent(p, calls, format, device, now) || SpentSinceFull(p, calls, format, device, now)
    decreases |calls|
  {
    hide Fault, Credit, Assessed;
    CreditIsBounded(p, calls, format, device, p.updated, now);
    CreditGrows(p, p.updated, now);
    if calls != [] {
      var (m, time) := (calls[0].request, calls[0].now);
      var after := Assessed(p, m, format, device, time).0;
      OneCall(p, m, format, device, time);
      CreditGrows(p, p.updated, time);
      CreditIsBounded(p, calls, format, device, time, now);
      OrderedFrom(after.updated, time, calls[1..]);
      ShortIsSpent(after, calls[1..], format, device, now);
    }
  }

  lemma OrderedFrom(from: u64, first: u64, calls: seq<Call>)
    requires from <= first && InOrder(first, calls)
    ensures InOrder(from, calls) && (calls == [] || Last(from, calls) == Last(first, calls)) && Last(from, []) == from
  {
  }

  /**
   * After any calls on a forward clock, the error that a fault deserves is withheld if and only if the whole credit
   * has been spent on errors: since the start, or since some call that found it full.
   */
  lemma WithheldExactlyWhenSpent(p: Policy, calls: seq<Call>, m: Envelope, format: Format, device: Text, now: u64)
    requires InOrder(p.updated, calls) && Last(p.updated, calls) <= now && Fault(m, format, device)
    ensures Assessed(After(p, calls, format, device), m, format, device, now).1.decision == RateLimited <==>
            AllSpent(p, calls, format, device, now) || SpentSinceFull(p, calls, format, device, now)
  {
    var end := After(p, calls, format, device);
    OneCall(end, m, format, device, now);
    CreditIsBounded(p, calls, format, device, p.updated, now);
    CreditGrows(p, p.updated, p.updated);
    hide Fault, Credit, Assessed, SpentSinceFull;
    if Credit(end, now) < 100 {
      ShortIsSpent(p, calls, format, device, now);
    } else if SpentSinceFull(p, calls, format, device, now) {
      assert calls != [] by { NothingSinceFull(p, format, device, now); }
      FullThenSpentIsShort(p, calls, format, device, now);
    }
  }

  lemma NothingSinceFull(p: Policy, format: Format, device: Text, now: u64)
    ensures !SpentSinceFull(p, [], format, device, now)
  {
  }
}
