/** The two message schemas, and the structural rules each decoder applies. */
module Messages {
  import opened Machine

  datatype Format = Csv | Json | Protobuf {
    function Id(): i32 {
      match this
      case Csv => 1
      case Json => 2
      case Protobuf => 3
    }
  }

  datatype CrcMode = Off | On

  datatype CodecError = Crc | Decode | Validation | Version | Size

  datatype Empty = Empty

  /** Temperatures are single-precision bit patterns, so every float is a value. */
  datatype Status = Status(temperature: Option<u32>, validity: Option<i32>, synthetic: Option<bool>)

  datatype Health = Health(
    state: Option<i32>, receivedRequests: Option<u32>, rejectedDatagrams: Option<u32>,
    sendErrors: Option<u32>, skippedPublications: Option<u32>)

  const NEGATIVE_ZERO: u32 := 0x8000_0000

  /** Finite and within -100.0 .. 200.0: below the sign bit, bit patterns order like values. */
  predicate PlausibleTemperature(bits: u32) {
    if bits < 0x8000_0000 then bits <= 0x4348_0000 else bits - 0x8000_0000 <= 0x42C8_0000
  }

  function Count(flags: seq<bool>): nat {
    if flags == [] then 0 else (if flags[0] then 1 else 0) + Count(flags[1..])
  }

  lemma {:induction false} CountNone(flags: seq<bool>)
    requires forall k :: 0 <= k < |flags| ==> !flags[k]
    ensures Count(flags) == 0
  {
    if flags != [] {
      CountNone(flags[1..]);
    }
  }

  lemma {:induction false} CountSingle(flags: seq<bool>, i: nat)
    requires i < |flags| && flags[i] && forall k :: 0 <= k < |flags| && k != i ==> !flags[k]
    ensures Count(flags) == 1
  {
    if i == 0 {
      CountNone(flags[1..]);
    } else {
      CountSingle(flags[1..], i - 1);
    }
  }

  lemma EmptyBody(body: Option<Empty>)
    ensures body.Some? ==> body == Some(Empty.Empty)
  {
    if body.Some? {
      assert body.value.Empty?;
    }
  }

  lemma {:induction false} CountAtLeastOne(flags: seq<bool>, i: nat)
    requires i < |flags| && flags[i]
    ensures Count(flags) >= 1
  {
    if i > 0 {
      CountAtLeastOne(flags[1..], i - 1);
    }
  }

  lemma OnlyOneFlag(flags: seq<bool>, i: nat, j: nat)
    requires Count(flags) == 1 && i < |flags| && j < |flags| && i != j && flags[i]
    ensures !flags[j]
  {
    if flags[j] {
      var first, second := if i < j then i else j, if i < j then j else i;
      TwoFlags(flags, first, second);
    }
  }

  lemma {:induction false} TwoFlags(flags: seq<bool>, i: nat, j: nat)
    requires i < j < |flags| && flags[i] && flags[j]
    ensures Count(flags) >= 2
  {
    if i == 0 {
      CountAtLeastOne(flags[1..], j - 1);
    } else {
      TwoFlags(flags[1..], i - 1, j - 1);
    }
  }

  predicate DeviceId(id: Option<Text>) {
    id.Some? && id.value != [] &&
    forall i :: 0 <= i < |id.value| ==>
      IsAlphanumeric(id.value[i]) || id.value[i] in {'_' as int, '.' as int, '-' as int}
  }

  /** Sixteen lowercase hexadecimal digits, not all zero. */
  predicate Nonce(id: Option<Text>) {
    id.Some? && |id.value| == 16 &&
    (exists i :: 0 <= i < 16 && id.value[i] != '0' as int) &&
    forall i :: 0 <= i < 16 ==> IsDigit(id.value[i]) || 'a' as int <= id.value[i] <= 'f' as int
  }

  function Require(condition: bool): Result<(), CodecError> {
    if condition then Ok(()) else Err(Validation)
  }
}

/** The ordinary messaging schema and its validation. */
module Messaging {
  import opened Machine
  import opened Messages

  datatype DeviceInfo = DeviceInfo(firmwareVersion: Option<Text32>, encoding: Option<i32>)
  datatype Error = Error(code: Option<i32>)

  datatype Envelope = Envelope(
    protocolVersion: Option<u32>, kind: Option<i32>, deviceId: Option<Text32>, bootId: Option<Text16>,
    clientSession: Option<Text16>, requestId: Option<u32>, sequence: Option<u32>, uptimeMs: Option<u32>,
    getDeviceInfo: Option<Empty>, getStatus: Option<Empty>, getHealth: Option<Empty>,
    deviceInfo: Option<DeviceInfo>, status: Option<Status>, health: Option<Health>, error: Option<Error>)

  const BLANK := Envelope(None, None, None, None, None, None, None, None, None, None, None, None, None, None, None)

  function Bodies(m: Envelope): seq<bool> {
    [m.getDeviceInfo.Some?, m.getStatus.Some?, m.getHealth.Some?, m.deviceInfo.Some?, m.status.Some?,
     m.health.Some?, m.error.Some?]
  }

  /** Enough identity to address an error reply. */
  predicate Correlation(m: Envelope) {
    m.protocolVersion == Some(1) && DeviceId(m.deviceId) && Nonce(m.clientSession) &&
    m.requestId.Some? && m.requestId.value != 0
  }

  predicate BodyMatchesKind(m: Envelope, kind: i32) {
    match kind
    case 1 => m.getDeviceInfo.Some?
    case 2 => m.getStatus.Some?
    case 3 => m.getHealth.Some?
    case 11 => m.deviceInfo.Some?
    case 12 | 21 => m.status.Some?
    case 13 | 22 => m.health.Some?
    case 14 => m.error.Some?
    case _ => false
  }

  predicate HeaderMatchesKind(m: Envelope, kind: i32) {
    if 1 <= kind <= 3 then
      m.bootId.None? && m.uptimeMs.None? && m.sequence.None? && Correlation(m)
    else if 11 <= kind <= 14 then
      Nonce(m.bootId) && m.uptimeMs.Some? && m.sequence.None? && Correlation(m)
    else
      kind in {21, 22} && Nonce(m.bootId) && m.uptimeMs.Some? && m.sequence.Some? &&
      m.clientSession.None? && m.requestId.None?
  }

  predicate StatusValid(s: Status) {
    s.synthetic == Some(true) &&
    match s.validity
    case Some(1) => s.temperature.Some? && PlausibleTemperature(s.temperature.value)
    case Some(2) | Some(3) => s.temperature.None?
    case _ => false
  }

  predicate HealthValid(h: Health) {
    h.state in {Some(1), Some(2)} && h.receivedRequests.Some? && h.rejectedDatagrams.Some? &&
    h.sendErrors.Some? && h.skippedPublications.Some?
  }

  predicate InfoValid(info: DeviceInfo, format: Format) {
    info.encoding == Some(format.Id()) && info.firmwareVersion.Some? && info.firmwareVersion.value != [] &&
    forall i :: 0 <= i < |info.firmwareVersion.value| ==> 0x20 <= info.firmwareVersion.value[i] <= 0x7e
  }

  predicate BodyValid(m: Envelope, format: Format) {
    (m.deviceInfo.Some? ==> InfoValid(m.deviceInfo.value, format)) &&
    (m.status.Some? ==> StatusValid(m.status.value)) &&
    (m.health.Some? ==> HealthValid(m.health.value)) &&
    (m.error.Some? ==> m.error.value.code in {Some(1), Some(2)})
  }

  function Validate(m: Envelope, format: Format): Result<(), CodecError> {
    if m.protocolVersion != Some(1) then
      Err(if m.protocolVersion.None? then Validation else Version)
    else
      Require(
        DeviceId(m.deviceId) && m.kind.Some? && Count(Bodies(m)) == 1 && BodyMatchesKind(m, m.kind.value) &&
        HeaderMatchesKind(m, m.kind.value) && BodyValid(m, format))
  }
}

/** The benchmark schema and its validation. */
module Benchmark {
  import opened Machine
  import opened Messages
  import Messaging

  datatype Configuration = Configuration(
    payloadBytes: Option<u32>, patternSeed: Option<u32>, statusPeriodUs: Option<u32>,
    healthPeriodUs: Option<u32>, leaseMs: Option<u32>)

  datatype Limits = Limits(
    encoding: Option<i32>, crcEnabled: Option<bool>, maxPayloadBytes: Option<u32>, maxDatagramBytes: Option<u32>,
    minStatusPeriodUs: Option<u32>, minHealthPeriodUs: Option<u32>, maxPeriodUs: Option<u32>,
    minLeaseMs: Option<u32>, maxLeaseMs: Option<u32>, available: Option<bool>)

  datatype ControlResult = ControlResult(code: Option<i32>, leaseRemainingMs: Option<u32>)

  datatype Envelope = Envelope(
    protocolVersion: Option<u32>, kind: Option<i32>, deviceId: Option<Text32>, bootId: Option<Text16>,
    sessionId: Option<Text16>, requestId: Option<u32>, sequence: Option<u32>, uptimeMs: Option<u32>,
    payload: Option<Text512>, runEpoch: Option<u32>,
    capabilities: Option<Empty>, configure: Option<Configuration>, renew: Option<Empty>, stop: Option<Empty>,
    probe: Option<Empty>, limits: Option<Limits>, result: Option<ControlResult>, probeResponse: Option<Empty>,
    status: Option<Status>, health: Option<Health>)

  const BLANK := Envelope(
    None, None, None, None, None, None, None, None, None, None,
    None, None, None, None, None, None, None, None, None, None)

  function Bodies(m: Envelope): seq<bool> {
    [m.capabilities.Some?, m.configure.Some?, m.renew.Some?, m.stop.Some?, m.probe.Some?, m.limits.Some?,
     m.result.Some?, m.probeResponse.Some?, m.status.Some?, m.health.Some?]
  }

  predicate BodyMatchesKind(m: Envelope, kind: i32) {
    match kind
    case 1 => m.capabilities.Some?
    case 2 => m.configure.Some?
    case 3 => m.renew.Some?
    case 4 => m.stop.Some?
    case 5 => m.probe.Some?
    case 11 => m.limits.Some?
    case 12 => m.result.Some?
    case 15 => m.probeResponse.Some?
    case 21 => m.status.Some?
    case 22 => m.health.Some?
    case _ => false
  }

  predicate Complete(c: Configuration) {
    c.payloadBytes.Some? && c.patternSeed.Some? && c.statusPeriodUs.Some? && c.healthPeriodUs.Some? && c.leaseMs.Some?
  }

  /** Bounds that a configure request must meet before any of it is applied. */
  predicate ConfigurationValid(c: Configuration) {
    Complete(c) && c.payloadBytes.value <= 512 &&
    (c.statusPeriodUs.value == 0 || 1000 <= c.statusPeriodUs.value <= 10000000) &&
    (c.healthPeriodUs.value == 0 || 10000 <= c.healthPeriodUs.value <= 10000000) &&
    2000 <= c.leaseMs.value <= 30000
  }

  predicate HeaderMatchesKind(m: Envelope, kind: i32) {
    var request := 1 <= kind <= 5;
    var publication := kind in {21, 22};
    m.uptimeMs.Some? != request && m.sequence.Some? == publication && m.requestId.Some? != publication &&
    (!publication ==> m.requestId.Some? && m.requestId.value > 0) &&
    (if kind == 1 then m.bootId.None? && m.runEpoch.None?
     else Nonce(m.bootId) && m.runEpoch.Some? && m.runEpoch.value > 0)
  }

  predicate CarriesPayload(kind: i32) {
    kind in {5, 15, 21, 22}
  }

  predicate PayloadMatchesKind(m: Envelope, kind: i32) {
    m.payload.Some? == CarriesPayload(kind) &&
    (m.payload.Some? ==> forall i :: 0 <= i < |m.payload.value| ==> IsAlphanumeric(m.payload.value[i]))
  }

  function Advertised(format: Format, crc: CrcMode, available: bool): Limits {
    Limits(Some(format.Id()), Some(crc == On), Some(512), Some(1024), Some(1000), Some(10000), Some(10000000),
           Some(2000), Some(30000), Some(available))
  }

  predicate LimitsValid(l: Limits, format: Format, crc: CrcMode) {
    l.available.Some? && l == Advertised(format, crc, l.available.value)
  }

  predicate ResultValid(r: ControlResult) {
    r.code.Some? && 1 <= r.code.value <= 10 && r.leaseRemainingMs.Some? && r.leaseRemainingMs.value <= 30000
  }

  /** The ordinary envelope through which status and health samples are checked. */
  function AsPublication(m: Envelope): Messaging.Envelope {
    Messaging.BLANK.(
      protocolVersion := Some(1), kind := m.kind, deviceId := m.deviceId, bootId := m.bootId,
      sequence := m.sequence, uptimeMs := m.uptimeMs, status := m.status, health := m.health)
  }

  function Validate(m: Envelope, format: Format, crc: CrcMode): Result<(), CodecError> {
    if m.protocolVersion != Some(1) then
      Err(if m.protocolVersion.Some? then Version else Validation)
    else if !(DeviceId(m.deviceId) && Nonce(m.sessionId) && m.kind.Some? && Count(Bodies(m)) == 1 &&
              BodyMatchesKind(m, m.kind.value) && HeaderMatchesKind(m, m.kind.value) &&
              PayloadMatchesKind(m, m.kind.value) && (m.configure.Some? ==> Complete(m.configure.value)) &&
              (m.limits.Some? ==> LimitsValid(m.limits.value, format, crc)) &&
              (m.result.Some? ==> ResultValid(m.result.value))) then
      Err(Validation)
    else if m.status.Some? || m.health.Some? then
      Messaging.Validate(AsPublication(m), format)
    else
      Ok(())
  }
}
