/** What a single-precision bit pattern is worth, in units of 2^-149, so that every finite value is an integer. */
module Float32 {
  import opened Machine
  import opened Messages

  function PowerOfTwo(k: nat): (p: nat)
    ensures p >= 1
  {
    if k == 0 then 1 else 2 * PowerOfTwo(k - 1)
  }

  function Exponent(bits: u32): nat {
    bits / 0x80_0000 % 0x100
  }

  function Fraction(bits: u32): nat {
    bits % 0x80_0000
  }

  predicate Finite(bits: u32) {
    Exponent(bits) < 255
  }

  function Magnitude(bits: u32): nat {
    if Exponent(bits) == 0 then Fraction(bits)
    else (0x80_0000 + Fraction(bits)) * PowerOfTwo(Exponent(bits) - 1)
  }

  /** The value of a finite pattern, scaled by 2^149. */
  function Scaled(bits: u32): int {
    if bits < 0x8000_0000 then Magnitude(bits) else 0 - Magnitude(bits)
  }

  lemma {:induction false} PowersGrow(j: nat, k: nat)
    requires j <= k
    ensures PowerOfTwo(j) <= PowerOfTwo(k)
    decreases k - j
  {
    if j < k {
      PowersGrow(j, k - 1);
    }
  }

  lemma {:induction false} PowersMultiply(j: nat, k: nat)
    ensures PowerOfTwo(j + k) == PowerOfTwo(j) * PowerOfTwo(k)
    decreases j
  {
    if j > 0 {
      PowersMultiply(j - 1, k);
    }
  }

  lemma Split(bits: u32)
    requires bits < 0x8000_0000
    ensures bits == Exponent(bits) * 0x80_0000 + Fraction(bits) && Fraction(bits) < 0x80_0000
  {
  }

  lemma Multiply(a: nat, b: nat, c: nat, d: nat)
    requires a <= b && c <= d
    ensures a * c <= b * d
  {
    assert a * c <= b * c <= b * d;
  }

  /** Without the sign bit, patterns are ordered like their values. */
  lemma MagnitudeGrows(a: u32, b: u32)
    requires a <= b < 0x8000_0000
    ensures Magnitude(a) <= Magnitude(b)
  {
    Split(a);
    Split(b);
    var (e, f) := (Exponent(a), Exponent(b));
    if e == f {
      Multiply(0x80_0000 + Fraction(a), 0x80_0000 + Fraction(b), PowerOfTwo(e - if e == 0 then 0 else 1),
               PowerOfTwo(e - if e == 0 then 0 else 1));
    } else if e == 0 {
      Multiply(0x80_0000, 0x80_0000 + Fraction(b), 1, PowerOfTwo(f - 1));
    } else {
      PowersGrow(e, f - 1);
      Multiply(0x80_0000 + Fraction(a), 0x100_0000, PowerOfTwo(e - 1), PowerOfTwo(e - 1));
      assert 0x100_0000 * PowerOfTwo(e - 1) == 0x80_0000 * PowerOfTwo(e);
      Multiply(0x80_0000, 0x80_0000 + Fraction(b), PowerOfTwo(e), PowerOfTwo(f - 1));
    }
  }

  lemma MagnitudeGrowsStrictly(a: u32, b: u32)
    requires a < b < 0x8000_0000
    ensures Magnitude(a) < Magnitude(b)
  {
    Split(a);
    Split(b);
    var e := Exponent(b);
    assert e > 1 ==> PowerOfTwo(e - 1) == 2 * PowerOfTwo(e - 2);
    hide PowerOfTwo;
    MagnitudeGrows(a, b - 1);
    Split(b - 1);
    if Fraction(b) > 0 {
      assert Exponent(b - 1) == e && Fraction(b - 1) == Fraction(b) - 1;
      if e > 0 {
        assert Magnitude(b) == Magnitude(b - 1) + PowerOfTwo(e - 1);
      }
    } else {
      assert Exponent(b - 1) == e - 1 && Fraction(b - 1) == 0x7F_FFFF;
      if e > 1 {
        assert Magnitude(b) == Magnitude(b - 1) + PowerOfTwo(e - 2);
      }
    }
  }

  lemma SmallPowers()
    ensures PowerOfTwo(16) == 0x1_0000 && PowerOfTwo(17) == 0x2_0000
  {
    assert PowerOfTwo(4) == 0x10;
    PowersMultiply(4, 4);
    PowersMultiply(8, 8);
    assert PowerOfTwo(17) == 2 * PowerOfTwo(16);
  }

  lemma MagnitudeIs(bits: u32, exponent: nat, fraction: nat)
    requires 0 < exponent < 256 && fraction < 0x80_0000 && bits == exponent * 0x80_0000 + fraction
    ensures Magnitude(bits) == (0x80_0000 + fraction) * PowerOfTwo(exponent - 1)
  {
    hide PowerOfTwo;
  }

  lemma Bounds()
    ensures Magnitude(0x4348_0000) == 200 * PowerOfTwo(149) && Magnitude(0x42C8_0000) == 100 * PowerOfTwo(149)
  {
    hide PowerOfTwo, Magnitude;
    SmallPowers();
    PowersMultiply(16, 133);
    PowersMultiply(17, 132);
    MagnitudeIs(0x4348_0000, 134, 0x48_0000);
    MagnitudeIs(0x42C8_0000, 133, 0x48_0000);
  }

  lemma SignIsIgnored(bits: u32)
    requires bits >= 0x8000_0000
    ensures Magnitude(bits) == Magnitude(bits - 0x8000_0000) && Exponent(bits) == Exponent(bits - 0x8000_0000)
  {
    SameParts(bits);
    hide PowerOfTwo, Exponent, Fraction;
  }

  lemma SameParts(bits: u32)
    requires bits >= 0x8000_0000
    ensures Fraction(bits) == Fraction(bits - 0x8000_0000) && Exponent(bits) == Exponent(bits - 0x8000_0000)
  {
    var q, r := bits / 0x80_0000, bits % 0x80_0000;
    assert bits - 0x8000_0000 == (q - 256) * 0x80_0000 + r;
    assert (bits - 0x8000_0000) / 0x80_0000 == q - 256 && (bits - 0x8000_0000) % 0x80_0000 == r;
  }

  /** Temperatures are accepted exactly from -100 to 200 degrees, and infinities and NaNs are not temperatures. */
  lemma TemperatureRange(bits: u32)
    ensures PlausibleTemperature(bits) <==>
            Finite(bits) && -100 * PowerOfTwo(149) <= Scaled(bits) <= 200 * PowerOfTwo(149)
  {
    hide PowerOfTwo, Magnitude;
    Bounds();
    var negative := bits >= 0x8000_0000;
    var magnitude: u32 := if negative then bits - 0x8000_0000 else bits;
    if negative {
      SignIsIgnored(bits);
    }
    Split(magnitude);
    var limit: u32 := if negative then 0x42C8_0000 else 0x4348_0000;
    if magnitude <= limit {
      MagnitudeGrows(magnitude, limit);
    } else {
      MagnitudeGrowsStrictly(limit, magnitude);
    }
  }
}

/**
 * The messaging contract as its documentation tabulates it: which common fields a message of each role has, which
 * body belongs to each kind, and what the fields may hold.
 */
module MessagingContract {
  import opened Machine
  import opened Messages
  import opened Messaging
  import Float32

  datatype Role = Request | Response | Publication

  function RoleOf(kind: i32): Option<Role> {
    if kind in {1, 2, 3} then Some(Request)
    else if kind in {11, 12, 13, 14} then Some(Response)
    else if kind in {21, 22} then Some(Publication)
    else None
  }

  /** The columns of the table: version, kind, device, boot, session, request, sequence, uptime. */
  function CommonFields(m: Envelope): seq<bool> {
    [m.protocolVersion.Some?, m.kind.Some?, m.deviceId.Some?, m.bootId.Some?,
     m.clientSession.Some?, m.requestId.Some?, m.sequence.Some?, m.uptimeMs.Some?]
  }

  function RequiredFields(role: Role): seq<bool> {
    match role
    case Request => [true, true, true, false, true, true, false, false]
    case Response => [true, true, true, true, true, true, false, true]
    case Publication => [true, true, true, true, false, false, true, true]
  }

  /** The bodies in the order of the schema, and the kinds that each belongs to. */
  function KindsOfBodies(): seq<set<int>> {
    [{1}, {2}, {3}, {11}, {12, 21}, {13, 22}, {14}]
  }

  /** Exactly one body is there, and it is one for this kind. */
  predicate OneBodyOfKind(bodies: seq<bool>, kinds: seq<set<int>>, kind: i32) {
    |bodies| == |kinds| &&
    exists i ::
      0 <= i < |bodies| && bodies[i] && kind in kinds[i] && forall j :: 0 <= j < |bodies| && bodies[j] ==> j == i
  }

  predicate IsDeviceCharacter(c: char) {
    'A' <= c <= 'Z' || 'a' <= c <= 'z' || '0' <= c <= '9' || c in "_.-"
  }

  predicate IsSessionCharacter(c: char) {
    '0' <= c <= '9' || 'a' <= c <= 'f'
  }

  predicate IsDevice(id: Text) {
    1 <= |id| && forall i :: 0 <= i < |id| ==> IsDeviceCharacter(id[i] as char)
  }

  predicate IsSession(id: Text) {
    |id| == 16 && (forall i :: 0 <= i < 16 ==> IsSessionCharacter(id[i] as char)) && id != seq(16, _ => '0' as int)
  }

  predicate IsInfo(info: DeviceInfo, format: Format) {
    info.encoding == Some(if format == Csv then 1 else if format == Json then 2 else 3) &&
    info.firmwareVersion.Some? && 1 <= |info.firmwareVersion.value| &&
    forall i :: 0 <= i < |info.firmwareVersion.value| ==> 0x20 <= info.firmwareVersion.value[i] <= 0x7e
  }

  predicate IsTemperature(bits: u32) {
    Float32.Finite(bits) && -100 * Float32.PowerOfTwo(149) <= Float32.Scaled(bits) <= 200 * Float32.PowerOfTwo(149)
  }

  predicate IsStatus(s: Status) {
    s.synthetic == Some(true) &&
    ((s.validity == Some(1) && s.temperature.Some? && IsTemperature(s.temperature.value)) ||
     (s.validity in {Some(2), Some(3)} && s.temperature.None?))
  }

  predicate IsHealth(h: Health) {
    h.state in {Some(1), Some(2)} && h.receivedRequests.Some? && h.rejectedDatagrams.Some? && h.sendErrors.Some? &&
    h.skippedPublications.Some?
  }

  predicate Conforms(m: Envelope, format: Format) {
    m.protocolVersion == Some(1) && m.kind.Some? && RoleOf(m.kind.value).Some? &&
    CommonFields(m) == RequiredFields(RoleOf(m.kind.value).value) &&
    OneBodyOfKind(Bodies(m), KindsOfBodies(), m.kind.value) &&
    IsDevice(m.deviceId.value) && (m.bootId.Some? ==> IsSession(m.bootId.value)) &&
    (m.clientSession.Some? ==> IsSession(m.clientSession.value)) && (m.requestId.Some? ==> m.requestId.value >= 1) &&
    (m.deviceInfo.Some? ==> IsInfo(m.deviceInfo.value, format)) && (m.status.Some? ==> IsStatus(m.status.value)) &&
    (m.health.Some? ==> IsHealth(m.health.value)) && (m.error.Some? ==> m.error.value.code in {Some(1), Some(2)})
  }

  // ---------------------------------------------------------------------
  // Validation implements the contract.

  lemma DeviceIsDevice(id: Option<Text>)
    ensures DeviceId(id) <==> id.Some? && IsDevice(id.value)
  {
  }

  lemma NonceIsSession(id: Option<Text>)
    ensures Nonce(id) <==> id.Some? && IsSession(id.value)
  {
    if id.Some? && |id.value| == 16 {
      var zeros: Text := seq(16, _ => '0' as int);
      assert id.value == zeros <==> forall i :: 0 <= i < 16 ==> id.value[i] == '0' as int;
    }
  }

  lemma CountsOne(flags: seq<bool>, i: nat)
    requires i < |flags| && flags[i]
    ensures Count(flags) == 1 <==> forall j :: 0 <= j < |flags| && flags[j] ==> j == i
  {
    if Count(flags) == 1 {
      forall j | 0 <= j < |flags| && flags[j]
        ensures j == i
      {
        if j != i {
          OnlyOneFlag(flags, i, j);
        }
      }
    } else if forall j :: 0 <= j < |flags| && flags[j] ==> j == i {
      CountSingle(flags, i);
    }
  }

  lemma {:induction false} SomeFlag(flags: seq<bool>) returns (i: nat)
    requires Count(flags) >= 1
    ensures i < |flags| && flags[i]
  {
    if flags[0] {
      i := 0;
    } else {
      var j := SomeFlag(flags[1..]);
      i := j + 1;
    }
  }

  lemma BodiesAgree(m: Envelope, kind: i32)
    ensures Count(Bodies(m)) == 1 && BodyMatchesKind(m, kind) <==> OneBodyOfKind(Bodies(m), KindsOfBodies(), kind)
  {
    var (bodies, kinds) := (Bodies(m), KindsOfBodies());
    if Count(bodies) == 1 {
      var i := SomeFlag(bodies);
      CountsOne(bodies, i);
      BodyOfKind(m, kind, i);
    } else if OneBodyOfKind(bodies, kinds, kind) {
      var i :| 0 <= i < |bodies| && bodies[i] && forall j :: 0 <= j < |bodies| && bodies[j] ==> j == i;
      CountsOne(bodies, i);
    }
  }

  lemma BodyOfKind(m: Envelope, kind: i32, i: nat)
    requires i < 7 && Bodies(m)[i] && forall j :: 0 <= j < 7 && Bodies(m)[j] ==> j == i
    ensures BodyMatchesKind(m, kind) <==> kind in KindsOfBodies()[i]
  {
    var bodies := Bodies(m);
    assert bodies[0] == m.getDeviceInfo.Some? && bodies[1] == m.getStatus.Some? && bodies[2] == m.getHealth.Some?;
    assert bodies[3] == m.deviceInfo.Some? && bodies[4] == m.status.Some? && bodies[5] == m.health.Some?;
    assert bodies[6] == m.error.Some?;
  }

  lemma StatusAgrees(s: Status)
    ensures StatusValid(s) <==> IsStatus(s)
  {
    hide Float32.PowerOfTwo, Float32.Scaled, Float32.Finite, PlausibleTemperature;
    if s.temperature.Some? {
      Float32.TemperatureRange(s.temperature.value);
    }
  }

  /** What an error reply needs to reach its sender. */
  lemma CorrelationIsTheContract(m: Envelope)
    ensures Correlation(m) <==>
            m.protocolVersion == Some(1) && m.deviceId.Some? && IsDevice(m.deviceId.value) &&
            m.clientSession.Some? && IsSession(m.clientSession.value) && m.requestId.Some? && m.requestId.value >= 1
  {
    DeviceIsDevice(m.deviceId);
    NonceIsSession(m.clientSession);
    hide DeviceId, IsDevice, Nonce, IsSession;
  }

  /** A message is accepted exactly if it conforms, and a version other than 1 is told apart. */
  lemma ValidationIsTheContract(m: Envelope, format: Format)
    ensures Validate(m, format).Ok? <==> Conforms(m, format)
    ensures Validate(m, format) == Err(Version) <==> m.protocolVersion.Some? && m.protocolVersion.value != 1
    ensures Validate(m, format).Err? ==> Validate(m, format).error in {Version, Validation}
  {
    DeviceIsDevice(m.deviceId);
    NonceIsSession(m.bootId);
    NonceIsSession(m.clientSession);
    if m.kind.Some? {
      BodiesAgree(m, m.kind.value);
    }
    if m.status.Some? {
      StatusAgrees(m.status.value);
    }
    hide DeviceId, IsDevice, Nonce, IsSession, Count, OneBodyOfKind, StatusValid, IsStatus, KindsOfBodies;
  }
}

/**
 * The script that stands beside the benchmark schema and judges messages independently of the firmware, the limits
 * of a configuration included.
 */
module BenchmarkContract {
  import opened Machine
  import opened Messages
  import opened Benchmark
  import Messaging
  import MessagingContract

  datatype Judgement = Accepted | VersionError | ValidationError | InvalidConfiguration

  const MIN_STATUS_PERIOD: nat := 1000
  const MIN_HEALTH_PERIOD: nat := 10000
  const MAX_PERIOD: nat := 10000000
  const MIN_LEASE: nat := 2000
  const MAX_LEASE: nat := 30000
  const MAX_PAYLOAD: nat := 512

  /** The kinds of the bodies, in the order of the schema. */
  function KindsOfBodies(): seq<set<int>> {
    [{1}, {2}, {3}, {4}, {5}, {11}, {12}, {15}, {21}, {22}]
  }

  predicate InRange(low: nat, v: Option<u32>, high: nat) {
    v.Some? && low <= v.value <= high
  }

  predicate WithinLimits(c: Configuration) {
    InRange(0, c.payloadBytes, MAX_PAYLOAD) && InRange(MIN_LEASE, c.leaseMs, MAX_LEASE) &&
    (c.statusPeriodUs == Some(0) || InRange(MIN_STATUS_PERIOD, c.statusPeriodUs, MAX_PERIOD)) &&
    (c.healthPeriodUs == Some(0) || InRange(MIN_HEALTH_PERIOD, c.healthPeriodUs, MAX_PERIOD))
  }

  predicate CommonFields(m: Envelope, kind: i32) {
    var request, publication, data := kind in {1, 2, 3, 4, 5}, kind in {21, 22}, kind in {5, 15, 21, 22};
    m.deviceId.Some? && MessagingContract.IsDevice(m.deviceId.value) &&
    m.sessionId.Some? && MessagingContract.IsSession(m.sessionId.value) &&
    m.uptimeMs.Some? == !request && m.sequence.Some? == publication && m.requestId.Some? == !publication &&
    (m.requestId.Some? ==> m.requestId.value > 0) &&
    (if kind == 1 then m.bootId.None? && m.runEpoch.None?
     else
       m.bootId.Some? && MessagingContract.IsSession(m.bootId.value) && m.runEpoch.Some? && m.runEpoch.value > 0) &&
    m.payload.Some? == data &&
    (m.payload.Some? ==>
       |m.payload.value| <= MAX_PAYLOAD && forall i :: 0 <= i < |m.payload.value| ==>
         var c := m.payload.value[i] as char; 'A' <= c <= 'Z' || 'a' <= c <= 'z' || '0' <= c <= '9')
  }

  predicate BodyFields(m: Envelope, format: Format, crc: CrcMode) {
    (m.configure.Some? ==>
       var c := m.configure.value;
       c.payloadBytes.Some? && c.patternSeed.Some? && c.statusPeriodUs.Some? && c.healthPeriodUs.Some? &&
       c.leaseMs.Some?) &&
    (m.limits.Some? ==>
       var l := m.limits.value;
       l.encoding == Some(if format == Csv then 1 else if format == Json then 2 else 3) &&
       l.crcEnabled == Some(crc == On) && l.maxPayloadBytes == Some(MAX_PAYLOAD) && l.maxDatagramBytes == Some(1024) &&
       l.minStatusPeriodUs == Some(MIN_STATUS_PERIOD) && l.minHealthPeriodUs == Some(MIN_HEALTH_PERIOD) &&
       l.maxPeriodUs == Some(MAX_PERIOD) && l.minLeaseMs == Some(MIN_LEASE) && l.maxLeaseMs == Some(MAX_LEASE) &&
       l.available.Some?) &&
    (m.result.Some? ==> InI32Range(1, m.result.value.code, 10) && InRange(0, m.result.value.leaseRemainingMs, 30000)) &&
    (m.status.Some? ==> MessagingContract.IsStatus(m.status.value)) &&
    (m.health.Some? ==> MessagingContract.IsHealth(m.health.value))
  }

  predicate InI32Range(low: int, v: Option<i32>, high: int) {
    v.Some? && low <= v.value <= high
  }

  function Judge(m: Envelope, format: Format, crc: CrcMode): Judgement {
    if m.protocolVersion != Some(1) then (if m.protocolVersion.Some? then VersionError else ValidationError)
    else if !(m.kind.Some? && MessagingContract.OneBodyOfKind(Bodies(m), KindsOfBodies(), m.kind.value) &&
              CommonFields(m, m.kind.value) && BodyFields(m, format, crc)) then ValidationError
    else if m.configure.Some? && !WithinLimits(m.configure.value) then InvalidConfiguration
    else Accepted
  }

  // ---------------------------------------------------------------------
  // Both judge alike.

  lemma BodyOfKind(m: Envelope, kind: i32, i: nat)
    requires i < 10 && Bodies(m)[i] && forall j :: 0 <= j < 10 && Bodies(m)[j] ==> j == i
    ensures BodyMatchesKind(m, kind) <==> kind in KindsOfBodies()[i]
  {
    var bodies := Bodies(m);
    assert bodies[0] == m.capabilities.Some? && bodies[1] == m.configure.Some? && bodies[2] == m.renew.Some?;
    assert bodies[3] == m.stop.Some? && bodies[4] == m.probe.Some? && bodies[5] == m.limits.Some?;
    assert bodies[6] == m.result.Some? && bodies[7] == m.probeResponse.Some? && bodies[8] == m.status.Some?;
    assert bodies[9] == m.health.Some?;
  }

  lemma BodiesAgree(m: Envelope, kind: i32)
    ensures Count(Bodies(m)) == 1 && BodyMatchesKind(m, kind) <==>
            MessagingContract.OneBodyOfKind(Bodies(m), KindsOfBodies(), kind)
  {
    var (bodies, kinds) := (Bodies(m), KindsOfBodies());
    if Count(bodies) == 1 {
      var i := MessagingContract.SomeFlag(bodies);
      MessagingContract.CountsOne(bodies, i);
      BodyOfKind(m, kind, i);
    } else if MessagingContract.OneBodyOfKind(bodies, kinds, kind) {
      var i :| 0 <= i < |bodies| && bodies[i] && forall j :: 0 <= j < |bodies| && bodies[j] ==> j == i;
      MessagingContract.CountsOne(bodies, i);
    }
  }

  lemma CommonFieldsAgree(m: Envelope, kind: i32)
    requires kind in {1, 2, 3, 4, 5, 11, 12, 15, 21, 22}
    ensures CommonFields(m, kind) <==>
            DeviceId(m.deviceId) && Nonce(m.sessionId) && HeaderMatchesKind(m, kind) && PayloadMatchesKind(m, kind)
  {
    MessagingContract.DeviceIsDevice(m.deviceId);
    MessagingContract.NonceIsSession(m.sessionId);
    MessagingContract.NonceIsSession(m.bootId);
    hide DeviceId, Nonce, MessagingContract.IsDevice, MessagingContract.IsSession;
  }

  /** The nested check of a publication asks for nothing beyond its status or health. */
  lemma PublicationAgrees(m: Envelope, format: Format)
    requires m.kind.Some? && MessagingContract.OneBodyOfKind(Bodies(m), KindsOfBodies(), m.kind.value)
    requires CommonFields(m, m.kind.value) && (m.status.Some? || m.health.Some?)
    ensures Messaging.Validate(AsPublication(m), format).Ok? <==>
            (m.status.Some? ==> MessagingContract.IsStatus(m.status.value)) &&
            (m.health.Some? ==> MessagingContract.IsHealth(m.health.value))
    ensures Messaging.Validate(AsPublication(m), format) != Err(Version)
  {
    var p := AsPublication(m);
    var kind := m.kind.value;
    MessagingContract.ValidationIsTheContract(p, format);
    var bodies, inner := Bodies(m), Messaging.Bodies(p);
    assert bodies[8] == m.status.Some? && bodies[9] == m.health.Some?;
    var i :| 0 <= i < 10 && bodies[i] && kind in KindsOfBodies()[i] && forall j :: 0 <= j < 10 && bodies[j] ==> j == i;
    assert inner == [false, false, false, false, m.status.Some?, m.health.Some?, false];
    assert kind == 21 + (i - 8) && inner[i - 4] && kind in MessagingContract.KindsOfBodies()[i - 4];
    assert MessagingContract.OneBodyOfKind(inner, MessagingContract.KindsOfBodies(), kind);
    hide MessagingContract.IsDevice, MessagingContract.IsSession, MessagingContract.IsStatus;
    hide MessagingContract.IsHealth, Messaging.Validate, MessagingContract.OneBodyOfKind;
  }

  /** The script and the firmware accept the same messages, except that the script also judges configurations. */
  lemma ScriptAgrees(m: Envelope, format: Format, crc: CrcMode)
    ensures Judge(m, format, crc) in {Accepted, InvalidConfiguration} <==> Validate(m, format, crc).Ok?
    ensures Judge(m, format, crc) == VersionError <==> Validate(m, format, crc) == Err(Version)
    ensures Judge(m, format, crc) == ValidationError <==> Validate(m, format, crc) == Err(Validation)
    ensures Judge(m, format, crc) == InvalidConfiguration <==>
            Validate(m, format, crc).Ok? && m.configure.Some? && !ConfigurationValid(m.configure.value)
  {
    if m.protocolVersion == Some(1) && m.kind.Some? {
      var kind := m.kind.value;
      BodiesAgree(m, kind);
      if BodyMatchesKind(m, kind) {
        CommonFieldsAgree(m, kind);
        if MessagingContract.OneBodyOfKind(Bodies(m), KindsOfBodies(), kind) && CommonFields(m, kind) {
          BodiesAreExclusive(m, format, crc);
        }
      }
    }
    hide DeviceId, Nonce, MessagingContract.OneBodyOfKind, CommonFields, HeaderMatchesKind, PayloadMatchesKind, Count;
    hide Messaging.Validate, MessagingContract.IsStatus, MessagingContract.IsHealth, BodyMatchesKind, BodyFields;
  }

  lemma BodiesAreExclusive(m: Envelope, format: Format, crc: CrcMode)
    requires m.kind.Some? && MessagingContract.OneBodyOfKind(Bodies(m), KindsOfBodies(), m.kind.value)
    requires CommonFields(m, m.kind.value)
    ensures BodyFields(m, format, crc) <==>
            (m.configure.Some? ==> Complete(m.configure.value)) &&
            (m.limits.Some? ==> LimitsValid(m.limits.value, format, crc)) &&
            (m.result.Some? ==> ResultValid(m.result.value)) &&
            (m.status.Some? || m.health.Some? ==> Messaging.Validate(AsPublication(m), format).Ok?)
    ensures m.status.Some? || m.health.Some? ==>
              Messaging.Validate(AsPublication(m), format) in {Ok(()), Err(Validation)}
  {
    if m.status.Some? || m.health.Some? {
      PublicationAgrees(m, format);
      MessagingContract.ValidationIsTheContract(AsPublication(m), format);
    }
    hide Messaging.Validate, MessagingContract.IsStatus, MessagingContract.IsHealth, MessagingContract.OneBodyOfKind;
    hide CommonFields, AsPublication, MessagingContract.Conforms;
  }
}
