/** The ordinary messaging schema in its Protocol Buffers form. */
module MessagingProtobuf {
  import opened Machine
  import opened Messages
  import opened Messaging
  import opened Wire
  import opened Protobuf
  import Utf8

  type Message = Protobuf.Message

  // ---------------------------------------------------------------------
  // The tables, with the field numbers of the schema.

  const EMPTY_TABLE := Table([], [])

  const DEVICE_INFO_TABLE := Table([Field(1, Chars(32)), Field(2, Int32)], [])

  const STATUS_TABLE := Table([Field(1, Fixed32), Field(2, Int32), Field(3, Bool)], [])

  const HEALTH_TABLE := Table(
    [Field(1, Int32), Field(2, Varint32), Field(3, Varint32), Field(4, Varint32), Field(5, Varint32)], [])

  const ERROR_TABLE := Table([Field(1, Int32)], [])

  const ENVELOPE_FIELDS :=
    [Field(1, Varint32), Field(2, Int32), Field(3, Chars(32)), Field(4, Chars(16)), Field(5, Chars(16)),
     Field(6, Varint32), Field(7, Varint32), Field(8, Varint32)]

  const ENVELOPE_TABLE := Table(
    ENVELOPE_FIELDS,
    [Member(20, EMPTY_TABLE), Member(21, EMPTY_TABLE), Member(22, EMPTY_TABLE), Member(23, DEVICE_INFO_TABLE),
     Member(24, STATUS_TABLE), Member(25, HEALTH_TABLE), Member(26, ERROR_TABLE)])

  // ---------------------------------------------------------------------
  // Conversions.

  /** A message under construction, one optional field after another. */
  function WithNumber(m: Message, number: nat, v: Option<int>): Message {
    match v
    case None => m
    case Some(n) => m.(fields := m.fields[number := Number(n)])
  }

  function WithText(m: Message, number: nat, v: Option<Text>): Message {
    match v
    case None => m
    case Some(t) => m.(fields := m.fields[number := Characters(t)])
  }

  function AsNumber(b: Option<bool>): Option<int> {
    match b
    case None => None
    case Some(b) => Some(if b then 1 else 0)
  }

  function InfoToPb(info: DeviceInfo): Message {
    WithNumber(WithText(EMPTY, 1, info.firmwareVersion), 2, info.encoding)
  }

  function StatusToPb(s: Status): Message {
    WithNumber(WithNumber(WithNumber(EMPTY, 1, s.temperature), 2, s.validity), 3, AsNumber(s.synthetic))
  }

  function HealthToPb(h: Health): Message {
    WithNumber(WithNumber(WithNumber(WithNumber(WithNumber(
      EMPTY, 1, h.state), 2, h.receivedRequests), 3, h.rejectedDatagrams), 4, h.sendErrors), 5, h.skippedPublications)
  }

  function ErrorToPb(e: Error): Message {
    WithNumber(EMPTY, 1, e.code)
  }

  function HeaderToPb(m: Envelope): Message {
    WithNumber(WithNumber(WithNumber(WithText(WithText(WithText(WithNumber(WithNumber(
      EMPTY, 1, m.protocolVersion), 2, m.kind), 3, m.deviceId), 4, m.bootId), 5, m.clientSession),
      6, m.requestId), 7, m.sequence), 8, m.uptimeMs)
  }

  /** Of several bodies the last one assigned is kept. */
  function BodyToPb(m: Envelope): Option<Body> {
    if m.error.Some? then Some(Body(26, ErrorToPb(m.error.value)))
    else if m.health.Some? then Some(Body(25, HealthToPb(m.health.value)))
    else if m.status.Some? then Some(Body(24, StatusToPb(m.status.value)))
    else if m.deviceInfo.Some? then Some(Body(23, InfoToPb(m.deviceInfo.value)))
    else if m.getHealth.Some? then Some(Body(22, EMPTY))
    else if m.getStatus.Some? then Some(Body(21, EMPTY))
    else if m.getDeviceInfo.Some? then Some(Body(20, EMPTY))
    else None
  }

  function ToPb(m: Envelope): Message {
    HeaderToPb(m).(body := BodyToPb(m))
  }

  function Get(m: Message, number: nat): Option<Value> {
    if number in m.fields then Some(m.fields[number]) else None
  }

  function U32At(m: Message, number: nat): Option<u32> {
    match Get(m, number)
    case Some(Number(n)) => if 0 <= n <= U32_MAX then Some(n) else None
    case _ => None
  }

  function I32At(m: Message, number: nat): Option<i32> {
    match Get(m, number)
    case Some(Number(n)) => if -0x8000_0000 <= n <= 0x7FFF_FFFF then Some(n) else None
    case _ => None
  }

  function BoolAt(m: Message, number: nat): Option<bool> {
    match Get(m, number)
    case Some(Number(n)) => Some(n != 0)
    case _ => None
  }

  function TextAt(m: Message, number: nat, capacity: nat): (r: Option<Text>)
    ensures r.Some? ==> |r.value| <= capacity
  {
    match Get(m, number)
    case Some(Characters(t)) => if |t| <= capacity then Some(t) else None
    case _ => None
  }

  function InfoFromPb(m: Message): DeviceInfo {
    DeviceInfo(TextAt(m, 1, 32), I32At(m, 2))
  }

  function StatusFromPb(m: Message): Status {
    Status(U32At(m, 1), I32At(m, 2), BoolAt(m, 3))
  }

  function HealthFromPb(m: Message): Health {
    Health(I32At(m, 1), U32At(m, 2), U32At(m, 3), U32At(m, 4), U32At(m, 5))
  }

  function ErrorFromPb(m: Message): Error {
    Error(I32At(m, 1))
  }

  function HeaderFromPb(m: Message): Envelope {
    BLANK.(
      protocolVersion := U32At(m, 1), kind := I32At(m, 2), deviceId := TextAt(m, 3, 32), bootId := TextAt(m, 4, 16),
      clientSession := TextAt(m, 5, 16), requestId := U32At(m, 6), sequence := U32At(m, 7), uptimeMs := U32At(m, 8))
  }

  function WithBody(out: Envelope, body: Option<Body>): Envelope {
    match body
    case None => out
    case Some(b) =>
      match b.number
      case 20 => out.(getDeviceInfo := Some(Empty.Empty))
      case 21 => out.(getStatus := Some(Empty.Empty))
      case 22 => out.(getHealth := Some(Empty.Empty))
      case 23 => out.(deviceInfo := Some(InfoFromPb(b.message)))
      case 24 => out.(status := Some(StatusFromPb(b.message)))
      case 25 => out.(health := Some(HealthFromPb(b.message)))
      case 26 => out.(error := Some(ErrorFromPb(b.message)))
      case _ => out
  }

  function FromPb(m: Message): Envelope {
    WithBody(HeaderFromPb(m), m.body)
  }

  // ---------------------------------------------------------------------
  // Tables are well formed and conversions undo each other.

  lemma SmallTables()
    ensures WellFormed(EMPTY_TABLE) && MaxSize(EMPTY_TABLE) == 0
    ensures WellFormed(DEVICE_INFO_TABLE) && MaxSize(DEVICE_INFO_TABLE) == 45
    ensures WellFormed(ERROR_TABLE) && MaxSize(ERROR_TABLE) == 11
  {
  }

  lemma StatusTable()
    ensures WellFormed(STATUS_TABLE) && MaxSize(STATUS_TABLE) == 18
  {
  }

  lemma HealthTable()
    ensures WellFormed(HEALTH_TABLE) && MaxSize(HEALTH_TABLE) == 35
  {
  }

  lemma EnvelopeKinds()
    ensures KindOf(ENVELOPE_FIELDS, 1) == Some(Varint32) && KindOf(ENVELOPE_FIELDS, 2) == Some(Int32)
    ensures KindOf(ENVELOPE_FIELDS, 3) == Some(Chars(32)) && KindOf(ENVELOPE_FIELDS, 4) == Some(Chars(16))
    ensures KindOf(ENVELOPE_FIELDS, 5) == Some(Chars(16)) && KindOf(ENVELOPE_FIELDS, 6) == Some(Varint32)
    ensures KindOf(ENVELOPE_FIELDS, 7) == Some(Varint32) && KindOf(ENVELOPE_FIELDS, 8) == Some(Varint32)
    ensures forall n: nat :: n > 8 ==> KindOf(ENVELOPE_FIELDS, n).None?
  {
  }

  lemma EnvelopeNumber(i: nat)
    requires i < 7
    ensures |ENVELOPE_TABLE.members| == 7 && ENVELOPE_TABLE.members[i].number == 20 + i
  {
    var members := ENVELOPE_TABLE.members;
    assert members[0].number == 20 && members[1].number == 21 && members[2].number == 22 && members[3].number == 23;
    assert members[4].number == 24 && members[5].number == 25 && members[6].number == 26;
  }

  lemma EnvelopeMember(i: nat)
    requires i < 7
    ensures |ENVELOPE_TABLE.members| == 7
    ensures TableOf(ENVELOPE_TABLE.members, 20 + i) == Some(ENVELOPE_TABLE.members[i].table)
  {
    var members := ENVELOPE_TABLE.members;
    assert |members| == 7;
    forall j | 0 <= j < 7
      ensures members[j].number == 20 + j
    {
      EnvelopeNumber(j);
    }
    MemberAt(members, i);
  }

  lemma MemberAt(members: seq<Member>, i: nat)
    requires i < |members| && forall j :: 0 <= j < |members| ==> members[j].number == 20 + j
    ensures TableOf(members, 20 + i) == Some(members[i].table)
  {
    TableOfListed(members, i);
  }

  lemma EnvelopeFieldsSize()
    ensures MaxFields(ENVELOPE_FIELDS) == 105
  {
  }

  lemma MemberSizes()
    ensures Largest([3, 3, 3, 48, 21, 38, 14]) == 48
  {
    assert Largest([38, 14]) == 38;
    assert Largest([48, 21, 38, 14]) == 48;
    assert [3, 3, 3, 48, 21, 38, 14][1..][1..][1..] == [48, 21, 38, 14];
  }

  function MemberSize(member: Member): nat {
    SizeOfTag(member.number) + SizeOfRecord(MaxSize(member.table))
  }

  lemma EnvelopeMemberSizes()
    ensures var members := ENVELOPE_TABLE.members;
            MemberSize(members[0]) == 3 && MemberSize(members[1]) == 3 && MemberSize(members[2]) == 3 &&
            MemberSize(members[3]) == 48 && MemberSize(members[4]) == 21 && MemberSize(members[5]) == 38 &&
            MemberSize(members[6]) == 14
  {
    SmallTables();
    StatusTable();
    HealthTable();
    hide MaxSize;
  }

  /** No encoding of an envelope is longer than 153 bytes. */
  lemma EnvelopeTable()
    ensures WellFormed(ENVELOPE_TABLE) && MaxSize(ENVELOPE_TABLE) == 153
  {
    EnvelopeLimit();
    SmallTables();
    StatusTable();
    HealthTable();
    EnvelopeKinds();
    hide MaxSize, KindOf;
  }

  lemma EnvelopeLimit()
    ensures MaxSize(ENVELOPE_TABLE) == 153
  {
    EnvelopeFieldsSize();
    EnvelopeMemberSizes();
    MemberSizes();
    hide MaxSize, MaxFields, Largest, MemberSize;
    var members := ENVELOPE_TABLE.members;
    var sizes := seq(|members|, i requires 0 <= i < |members| => MemberSize(members[i]));
    assert sizes == [3, 3, 3, 48, 21, 38, 14];
    LimitIs(ENVELOPE_TABLE, sizes);
  }

  lemma LimitIs(table: Table, sizes: seq<nat>)
    requires |sizes| == |table.members| && forall i :: 0 <= i < |sizes| ==> sizes[i] == MemberSize(table.members[i])
    ensures MaxSize(table) == MaxFields(table.fields) + Largest(sizes)
  {
    hide SizeOfTag, SizeOfRecord, Largest, MaxFields;
    assert sizes == seq(|table.members|, i requires 0 <= i < |table.members| =>
      SizeOfTag(table.members[i].number) + SizeOfRecord(MaxSize(table.members[i].table)));
  }

  // ---------------------------------------------------------------------
  // Conversions give messages of the tables.

  lemma NumberKeepsValid(table: Table, m: Message, number: nat, kind: Kind, v: Option<int>)
    requires Protobuf.Valid(table, m) && KindOf(table.fields, number) == Some(kind)
    requires v.Some? ==> Wire.Fits(kind, Number(v.value))
    ensures Protobuf.Valid(table, WithNumber(m, number, v)) && WithNumber(m, number, v).body == m.body
  {
    hide KindOf, TableOf;
  }

  lemma TextKeepsValid(table: Table, m: Message, number: nat, kind: Kind, v: Option<Text>)
    requires Protobuf.Valid(table, m) && KindOf(table.fields, number) == Some(kind)
    requires v.Some? ==> Wire.Fits(kind, Characters(v.value))
    ensures Protobuf.Valid(table, WithText(m, number, v)) && WithText(m, number, v).body == m.body
  {
    hide KindOf, TableOf;
  }

  lemma EmptyIsValid(table: Table)
    ensures Protobuf.Valid(table, EMPTY)
  {
  }

  predicate WellEncoded(v: Option<Text>) {
    v.Some? ==> Utf8.Valid(v.value)
  }

  lemma InfoIsValid(info: DeviceInfo)
    requires WellEncoded(info.firmwareVersion)
    ensures Protobuf.Valid(DEVICE_INFO_TABLE, InfoToPb(info))
  {
    var t, m := DEVICE_INFO_TABLE, EMPTY;
    assert KindOf(t.fields, 1) == Some(Chars(32)) && KindOf(t.fields, 2) == Some(Int32);
    hide KindOf, Protobuf.Valid, WithNumber, WithText, Utf8.Valid;
    EmptyIsValid(t);
    TextKeepsValid(t, m, 1, Chars(32), info.firmwareVersion);
    NumberKeepsValid(t, WithText(m, 1, info.firmwareVersion), 2, Int32, info.encoding);
  }

  lemma StatusIsValid(s: Status)
    ensures Protobuf.Valid(STATUS_TABLE, StatusToPb(s))
  {
    var t := STATUS_TABLE;
    assert KindOf(t.fields, 1) == Some(Fixed32) && KindOf(t.fields, 2) == Some(Int32) &&
           KindOf(t.fields, 3) == Some(Bool);
    hide KindOf, Protobuf.Valid, WithNumber, WithText;
    EmptyIsValid(t);
    var m1 := WithNumber(EMPTY, 1, s.temperature);
    NumberKeepsValid(t, EMPTY, 1, Fixed32, s.temperature);
    NumberKeepsValid(t, m1, 2, Int32, s.validity);
    NumberKeepsValid(t, WithNumber(m1, 2, s.validity), 3, Bool, AsNumber(s.synthetic));
  }

  lemma HealthIsValid(h: Health)
    ensures Protobuf.Valid(HEALTH_TABLE, HealthToPb(h))
  {
    var t := HEALTH_TABLE;
    assert KindOf(t.fields, 1) == Some(Int32) && KindOf(t.fields, 2) == Some(Varint32) &&
           KindOf(t.fields, 3) == Some(Varint32);
    assert KindOf(t.fields, 4) == Some(Varint32) && KindOf(t.fields, 5) == Some(Varint32);
    hide KindOf, Protobuf.Valid, WithNumber, WithText;
    EmptyIsValid(t);
    var m1 := WithNumber(EMPTY, 1, h.state);
    var m2 := WithNumber(m1, 2, h.receivedRequests);
    var m3 := WithNumber(m2, 3, h.rejectedDatagrams);
    var m4 := WithNumber(m3, 4, h.sendErrors);
    NumberKeepsValid(t, EMPTY, 1, Int32, h.state);
    NumberKeepsValid(t, m1, 2, Varint32, h.receivedRequests);
    NumberKeepsValid(t, m2, 3, Varint32, h.rejectedDatagrams);
    NumberKeepsValid(t, m3, 4, Varint32, h.sendErrors);
    NumberKeepsValid(t, m4, 5, Varint32, h.skippedPublications);
  }

  lemma ErrorIsValid(e: Error)
    ensures Protobuf.Valid(ERROR_TABLE, ErrorToPb(e))
  {
    assert KindOf(ERROR_TABLE.fields, 1) == Some(Int32);
    NumberKeepsValid(ERROR_TABLE, EMPTY, 1, Int32, e.code);
  }

  lemma HeaderIsValid(m: Envelope)
    requires WellEncoded(m.deviceId) && WellEncoded(m.bootId) && WellEncoded(m.clientSession)
    ensures Protobuf.Valid(ENVELOPE_TABLE, HeaderToPb(m)) && HeaderToPb(m).body == None
  {
    var t := ENVELOPE_TABLE;
    EnvelopeKinds();
    hide KindOf, Protobuf.Valid, WithNumber, WithText, Utf8.Valid;
    EmptyIsValid(t);
    var m1 := WithNumber(EMPTY, 1, m.protocolVersion);
    var m2 := WithNumber(m1, 2, m.kind);
    var m3 := WithText(m2, 3, m.deviceId);
    var m4 := WithText(m3, 4, m.bootId);
    var m5 := WithText(m4, 5, m.clientSession);
    var m6 := WithNumber(m5, 6, m.requestId);
    var m7 := WithNumber(m6, 7, m.sequence);
    NumberKeepsValid(t, EMPTY, 1, Varint32, m.protocolVersion);
    NumberKeepsValid(t, m1, 2, Int32, m.kind);
    TextKeepsValid(t, m2, 3, Chars(32), m.deviceId);
    TextKeepsValid(t, m3, 4, Chars(16), m.bootId);
    TextKeepsValid(t, m4, 5, Chars(16), m.clientSession);
    NumberKeepsValid(t, m5, 6, Varint32, m.requestId);
    NumberKeepsValid(t, m6, 7, Varint32, m.sequence);
    NumberKeepsValid(t, m7, 8, Varint32, m.uptimeMs);
  }

  lemma BodyIsValid(m: Envelope)
    requires m.deviceInfo.Some? ==> WellEncoded(m.deviceInfo.value.firmwareVersion)
    ensures BodyToPb(m).Some? ==>
              var b := BodyToPb(m).value;
              TableOf(ENVELOPE_TABLE.members, b.number).Some? &&
              Protobuf.Valid(TableOf(ENVELOPE_TABLE.members, b.number).value, b.message)
  {
    if BodyToPb(m).Some? {
      var b := BodyToPb(m).value;
      EnvelopeMember(b.number - 20);
      hide TableOf, Protobuf.Valid, InfoToPb, StatusToPb, HealthToPb, ErrorToPb, WellEncoded;
      EmptyIsValid(EMPTY_TABLE);
      if b.number == 26 {
        ErrorIsValid(m.error.value);
      } else if b.number == 25 {
        HealthIsValid(m.health.value);
      } else if b.number == 24 {
        StatusIsValid(m.status.value);
      } else if b.number == 23 {
        InfoIsValid(m.deviceInfo.value);
      }
    }
  }

  lemma ToPbIsValid(m: Envelope)
    requires WellEncoded(m.deviceId) && WellEncoded(m.bootId) && WellEncoded(m.clientSession)
    requires m.deviceInfo.Some? ==> WellEncoded(m.deviceInfo.value.firmwareVersion)
    ensures Protobuf.Valid(ENVELOPE_TABLE, ToPb(m))
  {
    HeaderIsValid(m);
    BodyIsValid(m);
    hide TableOf, KindOf, HeaderToPb, BodyToPb, WellEncoded;
  }

  // ---------------------------------------------------------------------
  // Conversions undo each other.

  /** A step of a conversion sets its own field and no other. */
  lemma NumberLookup(m: Message, number: nat, v: Option<int>)
    ensures forall k: nat :: Get(WithNumber(m, number, v), k) ==
              if k == number && v.Some? then Some(Number(v.value)) else Get(m, k)
  {
  }

  lemma TextLookup(m: Message, number: nat, v: Option<Text>)
    ensures forall k: nat :: Get(WithText(m, number, v), k) ==
              if k == number && v.Some? then Some(Characters(v.value)) else Get(m, k)
  {
  }

  lemma EmptyLookup()
    ensures forall k: nat :: Get(EMPTY, k) == None
  {
  }

  lemma InfoRoundTrip(info: DeviceInfo)
    ensures InfoFromPb(InfoToPb(info)) == info
  {
  }

  lemma StatusRoundTrip(s: Status)
    ensures StatusFromPb(StatusToPb(s)) == s
  {
  }

  lemma HealthRoundTrip(h: Health)
    ensures HealthFromPb(HealthToPb(h)) == h
  {
    var m1 := WithNumber(EMPTY, 1, h.state);
    var m2 := WithNumber(m1, 2, h.receivedRequests);
    var m3 := WithNumber(m2, 3, h.rejectedDatagrams);
    var m4 := WithNumber(m3, 4, h.sendErrors);
    EmptyLookup();
    NumberLookup(EMPTY, 1, h.state);
    NumberLookup(m1, 2, h.receivedRequests);
    NumberLookup(m2, 3, h.rejectedDatagrams);
    NumberLookup(m3, 4, h.sendErrors);
    NumberLookup(m4, 5, h.skippedPublications);
    hide WithNumber, Get;
  }

  lemma ErrorRoundTrip(e: Error)
    ensures ErrorFromPb(ErrorToPb(e)) == e
  {
  }

  lemma HeaderRoundTrip(m: Envelope)
    ensures HeaderFromPb(HeaderToPb(m)) == m.(
              getDeviceInfo := None, getStatus := None, getHealth := None, deviceInfo := None, status := None,
              health := None, error := None)
  {
    hide WithNumber, WithText, Get;
    var m1 := WithNumber(EMPTY, 1, m.protocolVersion);
    var m2 := WithNumber(m1, 2, m.kind);
    var m3 := WithText(m2, 3, m.deviceId);
    var m4 := WithText(m3, 4, m.bootId);
    var m5 := WithText(m4, 5, m.clientSession);
    var m6 := WithNumber(m5, 6, m.requestId);
    var m7 := WithNumber(m6, 7, m.sequence);
    EmptyLookup();
    NumberLookup(EMPTY, 1, m.protocolVersion);
    NumberLookup(m1, 2, m.kind);
    TextLookup(m2, 3, m.deviceId);
    TextLookup(m3, 4, m.bootId);
    TextLookup(m4, 5, m.clientSession);
    NumberLookup(m5, 6, m.requestId);
    NumberLookup(m6, 7, m.sequence);
    NumberLookup(m7, 8, m.uptimeMs);
  }

  /** At most one body. */
  predicate OneBody(m: Envelope) {
    (m.getDeviceInfo.Some? ==> m.getStatus.None? && m.getHealth.None? && m.deviceInfo.None? && m.status.None? &&
                               m.health.None? && m.error.None?) &&
    (m.getStatus.Some? ==> m.getHealth.None? && m.deviceInfo.None? && m.status.None? && m.health.None? &&
                           m.error.None?) &&
    (m.getHealth.Some? ==> m.deviceInfo.None? && m.status.None? && m.health.None? && m.error.None?) &&
    (m.deviceInfo.Some? ==> m.status.None? && m.health.None? && m.error.None?) &&
    (m.status.Some? ==> m.health.None? && m.error.None?) &&
    (m.health.Some? ==> m.error.None?)
  }

  lemma FromPbUndoesToPb(m: Envelope)
    requires OneBody(m)
    ensures FromPb(ToPb(m)) == m
  {
    HeaderRoundTrip(m);
    assert HeaderFromPb(ToPb(m)) == HeaderFromPb(HeaderToPb(m)) by { SameHeader(HeaderToPb(m), BodyToPb(m)); }
    EmptyBody(m.getDeviceInfo);
    EmptyBody(m.getStatus);
    EmptyBody(m.getHealth);
    BodyRoundTrip(m);
  }

  lemma SameHeader(m: Message, body: Option<Body>)
    ensures HeaderFromPb(m.(body := body)) == HeaderFromPb(m)
  {
  }

  lemma BodyRoundTrip(m: Envelope)
    requires OneBody(m)
    ensures WithBody(m.(getDeviceInfo := None, getStatus := None, getHealth := None, deviceInfo := None, status := None,
                        health := None, error := None), BodyToPb(m)) == m
  {
    hide InfoToPb, InfoFromPb, StatusToPb, StatusFromPb, HealthToPb, HealthFromPb, ErrorToPb, ErrorFromPb;
    EmptyBody(m.getDeviceInfo);
    EmptyBody(m.getStatus);
    EmptyBody(m.getHealth);
    if m.error.Some? {
      ErrorRoundTrip(m.error.value);
    } else if m.health.Some? {
      HealthRoundTrip(m.health.value);
    } else if m.status.Some? {
      StatusRoundTrip(m.status.value);
    } else if m.deviceInfo.Some? {
      InfoRoundTrip(m.deviceInfo.value);
    }
  }

  // ---------------------------------------------------------------------
  // Valid messages.

  lemma BodyFlags(m: Envelope)
    ensures var b := Bodies(m);
            |b| == 7 && b[0] == m.getDeviceInfo.Some? && b[1] == m.getStatus.Some? && b[2] == m.getHealth.Some? &&
            b[3] == m.deviceInfo.Some? && b[4] == m.status.Some? && b[5] == m.health.Some? && b[6] == m.error.Some?
  {
  }

  lemma ValidHasOneBody(m: Envelope)
    requires Count(Bodies(m)) == 1
    ensures OneBody(m)
  {
    forall i, j | 0 <= i < |Bodies(m)| && 0 <= j < |Bodies(m)| && i != j && Bodies(m)[i]
      ensures !Bodies(m)[j]
    {
      OnlyOneFlag(Bodies(m), i, j);
    }
    BodyFlags(m);
    hide Bodies, Count;
    ExclusiveFlags(Bodies(m));
  }

  lemma ExclusiveFlags(b: seq<bool>)
    requires |b| == 7 && forall i, j :: 0 <= i < |b| && 0 <= j < |b| && i != j && b[i] ==> !b[j]
    ensures b[0] ==> !b[1] && !b[2] && !b[3] && !b[4] && !b[5] && !b[6]
    ensures b[1] ==> !b[2] && !b[3] && !b[4] && !b[5] && !b[6]
    ensures b[2] ==> !b[3] && !b[4] && !b[5] && !b[6]
    ensures b[3] ==> !b[4] && !b[5] && !b[6]
    ensures b[4] ==> !b[5] && !b[6]
    ensures b[5] ==> !b[6]
  {
  }

  lemma AsciiIsWellEncoded(v: Option<Text>)
    requires v.Some? ==> forall i :: 0 <= i < |v.value| ==> v.value[i] <= 0x7F
    ensures WellEncoded(v)
  {
    if v.Some? {
      Utf8.AsciiIsValid(v.value);
    }
  }

  lemma ValidTextsAreWellEncoded(m: Envelope)
    requires Messaging.Validate(m, Format.Protobuf).Ok?
    ensures WellEncoded(m.deviceId) && WellEncoded(m.bootId) && WellEncoded(m.clientSession)
    ensures m.deviceInfo.Some? ==> WellEncoded(m.deviceInfo.value.firmwareVersion)
  {
    hide Count, Bodies, WellEncoded, StatusValid, HealthValid, BodyMatchesKind;
    AsciiIsWellEncoded(m.deviceId);
    AsciiIsWellEncoded(m.bootId);
    AsciiIsWellEncoded(m.clientSession);
    if m.deviceInfo.Some? {
      AsciiIsWellEncoded(m.deviceInfo.value.firmwareVersion);
    }
  }

  /** Every valid message survives the wire, in at most 153 bytes. */
  lemma ValidEnvelopeRoundTrip(m: Envelope)
    requires Messaging.Validate(m, Format.Protobuf).Ok?
    ensures Protobuf.Valid(ENVELOPE_TABLE, ToPb(m))
    ensures |Protobuf.Encode(ENVELOPE_TABLE, ToPb(m))| <= MaxSize(ENVELOPE_TABLE) == 153
    ensures Protobuf.Decode(ENVELOPE_TABLE, EMPTY, Protobuf.Encode(ENVELOPE_TABLE, ToPb(m))) == Some(ToPb(m))
    ensures FromPb(ToPb(m)) == m
  {
    assert Count(Bodies(m)) == 1;
    ValidTextsAreWellEncoded(m);
    hide Messaging.Validate, Count, WellEncoded, OneBody, ToPb, FromPb, MaxSize, WellFormed, Protobuf.Valid;
    ValidHasOneBody(m);
    FromPbUndoesToPb(m);
    ToPbIsValid(m);
    EnvelopeTable();
    EncodingIsBounded(ENVELOPE_TABLE, ToPb(m));
    MessageRoundTrip(ENVELOPE_TABLE, ToPb(m));
  }

  // ---------------------------------------------------------------------
  // The published schema.

  function Numbered(v: Option<int>): Option<Value> {
    if v.Some? then Some(Number(v.value)) else None
  }

  function Lettered(v: Option<Text>): Option<Value> {
    if v.Some? then Some(Characters(v.value)) else None
  }

  lemma BodyAside(m: Message, body: Option<Body>, number: nat)
    ensures Get(m.(body := body), number) == Get(m, number)
  {
  }

  lemma HeaderNumbers(m: Envelope)
    ensures var h := HeaderToPb(m);
            Get(h, 1) == Numbered(m.protocolVersion) && Get(h, 2) == Numbered(m.kind) &&
            Get(h, 3) == Lettered(m.deviceId) && Get(h, 4) == Lettered(m.bootId) &&
            Get(h, 5) == Lettered(m.clientSession) && Get(h, 6) == Numbered(m.requestId) &&
            Get(h, 7) == Numbered(m.sequence) && Get(h, 8) == Numbered(m.uptimeMs)
  {
    hide WithNumber, WithText, Get;
    var m1 := WithNumber(EMPTY, 1, m.protocolVersion);
    var m2 := WithNumber(m1, 2, m.kind);
    var m3 := WithText(m2, 3, m.deviceId);
    var m4 := WithText(m3, 4, m.bootId);
    var m5 := WithText(m4, 5, m.clientSession);
    var m6 := WithNumber(m5, 6, m.requestId);
    var m7 := WithNumber(m6, 7, m.sequence);
    EmptyLookup();
    NumberLookup(EMPTY, 1, m.protocolVersion);
    NumberLookup(m1, 2, m.kind);
    TextLookup(m2, 3, m.deviceId);
    TextLookup(m3, 4, m.bootId);
    TextLookup(m4, 5, m.clientSession);
    NumberLookup(m5, 6, m.requestId);
    NumberLookup(m6, 7, m.sequence);
    NumberLookup(m7, 8, m.uptimeMs);
  }

  /** Every common field stands under its published number. */
  lemma CommonNumbers(m: Envelope)
    ensures Get(ToPb(m), 1) == Numbered(m.protocolVersion) && Get(ToPb(m), 2) == Numbered(m.kind)
    ensures Get(ToPb(m), 3) == Lettered(m.deviceId) && Get(ToPb(m), 4) == Lettered(m.bootId)
    ensures Get(ToPb(m), 5) == Lettered(m.clientSession) && Get(ToPb(m), 6) == Numbered(m.requestId)
    ensures Get(ToPb(m), 7) == Numbered(m.sequence) && Get(ToPb(m), 8) == Numbered(m.uptimeMs)
  {
    HeaderNumbers(m);
    hide HeaderToPb, BodyToPb, Get, Numbered, Lettered;
    var (h, b) := (HeaderToPb(m), BodyToPb(m));
    BodyAside(h, b, 1);
    BodyAside(h, b, 2);
    BodyAside(h, b, 3);
    BodyAside(h, b, 4);
    BodyAside(h, b, 5);
    BodyAside(h, b, 6);
    BodyAside(h, b, 7);
    BodyAside(h, b, 8);
  }

  lemma InfoNumbers(info: DeviceInfo)
    ensures Get(InfoToPb(info), 1) == Lettered(info.firmwareVersion)
    ensures Get(InfoToPb(info), 2) == Numbered(info.encoding)
  {
  }

  lemma StatusNumbers(s: Status)
    ensures Get(StatusToPb(s), 1) == Numbered(s.temperature) && Get(StatusToPb(s), 2) == Numbered(s.validity)
    ensures Get(StatusToPb(s), 3) == Numbered(AsNumber(s.synthetic))
  {
  }

  lemma HealthNumbers(h: Health)
    ensures var b := HealthToPb(h);
            Get(b, 1) == Numbered(h.state) && Get(b, 2) == Numbered(h.receivedRequests) &&
            Get(b, 3) == Numbered(h.rejectedDatagrams) && Get(b, 4) == Numbered(h.sendErrors) &&
            Get(b, 5) == Numbered(h.skippedPublications)
  {
    hide WithNumber, Get;
    var m1 := WithNumber(EMPTY, 1, h.state);
    var m2 := WithNumber(m1, 2, h.receivedRequests);
    var m3 := WithNumber(m2, 3, h.rejectedDatagrams);
    var m4 := WithNumber(m3, 4, h.sendErrors);
    EmptyLookup();
    NumberLookup(EMPTY, 1, h.state);
    NumberLookup(m1, 2, h.receivedRequests);
    NumberLookup(m2, 3, h.rejectedDatagrams);
    NumberLookup(m3, 4, h.sendErrors);
    NumberLookup(m4, 5, h.skippedPublications);
  }

  /** And every body under its own, with its fields under theirs. */
  lemma BodyNumbers(m: Envelope)
    requires OneBody(m)
    ensures m.getDeviceInfo.Some? ==> ToPb(m).body == Some(Body(20, EMPTY))
    ensures m.getStatus.Some? ==> ToPb(m).body == Some(Body(21, EMPTY))
    ensures m.getHealth.Some? ==> ToPb(m).body == Some(Body(22, EMPTY))
    ensures m.deviceInfo.Some? ==>
              ToPb(m).body.Some? && ToPb(m).body.value.number == 23 &&
              var (b, info) := (ToPb(m).body.value.message, m.deviceInfo.value);
              Get(b, 1) == Lettered(info.firmwareVersion) && Get(b, 2) == Numbered(info.encoding)
    ensures m.status.Some? ==>
              ToPb(m).body.Some? && ToPb(m).body.value.number == 24 &&
              var (b, s) := (ToPb(m).body.value.message, m.status.value);
              Get(b, 1) == Numbered(s.temperature) && Get(b, 2) == Numbered(s.validity) &&
              Get(b, 3) == Numbered(AsNumber(s.synthetic))
    ensures m.health.Some? ==>
              ToPb(m).body.Some? && ToPb(m).body.value.number == 25 &&
              var (b, h) := (ToPb(m).body.value.message, m.health.value);
              Get(b, 1) == Numbered(h.state) && Get(b, 2) == Numbered(h.receivedRequests) &&
              Get(b, 3) == Numbered(h.rejectedDatagrams) && Get(b, 4) == Numbered(h.sendErrors) &&
              Get(b, 5) == Numbered(h.skippedPublications)
    ensures m.error.Some? ==>
              ToPb(m).body.Some? && ToPb(m).body.value.number == 26 &&
              Get(ToPb(m).body.value.message, 1) == Numbered(m.error.value.code)
  {
    if m.deviceInfo.Some? {
      InfoNumbers(m.deviceInfo.value);
    }
    if m.status.Some? {
      StatusNumbers(m.status.value);
    }
    if m.health.Some? {
      HealthNumbers(m.health.value);
    }
    if m.error.Some? {
      NumberLookup(EMPTY, 1, m.error.value.code);
      EmptyLookup();
    }
    hide HeaderToPb, InfoToPb, StatusToPb, HealthToPb, Get, WithNumber;
  }

  /** The kinds of the fields, as the schema types and the profile bounds them. */
  lemma KindsFollowTheSchema(number: nat)
    ensures KindOf(ENVELOPE_FIELDS, number) ==
            if number in {1, 6, 7, 8} then Some(Varint32) else if number == 2 then Some(Int32)
            else if number == 3 then Some(Chars(32)) else if number in {4, 5} then Some(Chars(16)) else None
    ensures KindOf(STATUS_TABLE.fields, number) ==
            if number == 1 then Some(Fixed32) else if number == 2 then Some(Int32)
            else if number == 3 then Some(Bool) else None
    ensures KindOf(HEALTH_TABLE.fields, number) ==
            if number == 1 then Some(Int32) else if number in {2, 3, 4, 5} then Some(Varint32) else None
    ensures KindOf(DEVICE_INFO_TABLE.fields, number) ==
            if number == 1 then Some(Chars(32)) else if number == 2 then Some(Int32) else None
    ensures KindOf(ERROR_TABLE.fields, number) == if number == 1 then Some(Int32) else None
  {
  }
}
