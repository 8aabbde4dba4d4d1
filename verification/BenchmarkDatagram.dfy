/** Whole benchmark datagrams in CSV form: validation, one record, and the checksum trailer. */
module BenchmarkDatagram {
  import opened Machine
  import opened Messages
  import opened Benchmark
  import opened Cells
  import opened BenchmarkCsv
  import Messaging
  import CsvRecord
  import Framing
  import Utf8

  function Normalized(m: Envelope): Envelope {
    if m.status.Some? && m.status.value.temperature in {Some(0), Some(NEGATIVE_ZERO)} then
      m.(status := Some(m.status.value.(temperature := Some(0))))
    else m
  }

  function Encode(f: FloatText, crc: CrcMode, m: Envelope, room: nat): Result<Text, CodecError> {
    var _ :- Validate(m, Csv, crc);
    var record :- Written(f, m, if room < Framing.MAX_BODY then room else Framing.MAX_BODY);
    if |record| + Framing.Extra(crc) > room then Err(Size) else Ok(Framing.Sealed(crc, record))
  }

  function Decode(f: FloatText, crc: CrcMode, datagram: Text): Result<Envelope, CodecError> {
    var body :- Framing.Open(crc, datagram);
    if body == [] then Err(CodecError.Decode)
    else
      var cells :- Split(body);
      var m :- CsvRead(f, cells);
      var _ :- Validate(m, Csv, crc);
      Ok(Normalized(m))
  }

  /** Encodes into the caller's buffer. */
  method EncodeInto(f: FloatText, crc: CrcMode, m: Envelope, out: array<Byte>) returns (r: Result<nat, CodecError>)
    modifies out
    ensures match Encode(f, crc, m, out.Length)
            case Ok(datagram) => r == Ok(|datagram|) && |datagram| <= out.Length && out[..|datagram|] == datagram
            case Err(e) => r == Err(e)
  {
    hide Validate, Written, Framing.Trailer;
    var _ :- Validate(m, Csv, crc);
    var size :- CsvWrite(f, m, out, if out.Length < Framing.MAX_BODY then out.Length else Framing.MAX_BODY);
    WrittenFits(f, m, if out.Length < Framing.MAX_BODY then out.Length else Framing.MAX_BODY);
    r := Framing.Seal(crc, out, size);
  }

  lemma WrittenFits(f: FloatText, m: Envelope, capacity: nat)
    ensures Written(f, m, capacity).Ok? ==> |Written(f, m, capacity).value| <= capacity
  {
    hide Line, HeaderCells, BodyCells;
  }

  // ---------------------------------------------------------------------
  // What validation says about the cells.

  function BodyIndex(kind: i32): nat {
    if 1 <= kind <= 5 then kind - 1 else if kind == 11 then 5 else if kind == 12 then 6
    else if kind == 15 then 7 else if kind == 21 then 8 else 9
  }

  /** A valid message has the body of its kind and no other. */
  lemma ValidBodies(m: Envelope, crc: CrcMode, j: nat)
    requires Validate(m, Csv, crc).Ok? && j < 10
    ensures m.kind.Some? && BodyMatchesKind(m, m.kind.value)
    ensures Bodies(m)[j] <==> j == BodyIndex(m.kind.value)
  {
    hide Count, HeaderMatchesKind, PayloadMatchesKind, ResultValid;
    hide LimitsValid, Complete, Messaging.Validate, DeviceId, Nonce;
    var i := BodyIndex(m.kind.value);
    assert Bodies(m)[i];
    if i != j {
      OnlyOneFlag(Bodies(m), i, j);
    }
  }

  lemma ValidNames(m: Envelope, crc: CrcMode)
    requires Validate(m, Csv, crc).Ok?
    ensures NamesNonEmpty(m)
    ensures m.payload.Some? <==> CarriesPayload(m.kind.value)
    ensures PlainText(WriteText(m.deviceId)) && PlainText(WriteText(m.bootId)) && PlainText(WriteText(m.sessionId))
    ensures PlainText(WriteText(m.payload))
  {
    hide Count, ResultValid, LimitsValid, Complete, Messaging.Validate, Bodies, BodyMatchesKind;
  }

  lemma ValidTemperature(m: Envelope, crc: CrcMode)
    requires Validate(m, Csv, crc).Ok? && m.status.Some? && m.status.value.temperature.Some?
    ensures PlausibleTemperature(m.status.value.temperature.value)
  {
    hide Count, HeaderMatchesKind, PayloadMatchesKind, ResultValid, LimitsValid;
    hide Complete, DeviceId, Nonce, Bodies, BodyMatchesKind, PlausibleTemperature;
    assert Messaging.Validate(AsPublication(m), Csv).Ok?;
    assert Messaging.BodyValid(AsPublication(m), Csv);
  }

  // ---------------------------------------------------------------------
  // Cells are plain, and short enough together.

  predicate AllPlain(cells: seq<Text>) {
    forall i :: 0 <= i < |cells| ==> PlainText(cells[i])
  }

  function Sum(cells: seq<Text>): nat {
    if cells == [] then 0 else |cells[0]| + Sum(cells[1..])
  }

  lemma {:induction false} SumJoin(a: seq<Text>, b: seq<Text>)
    ensures Sum(a + b) == Sum(a) + Sum(b)
    decreases |a|
  {
    if a == [] {
      assert a + b == b;
    } else {
      assert (a + b)[1..] == a[1..] + b;
      SumJoin(a[1..], b);
    }
  }

  lemma {:induction false} LineLength(cells: seq<Text>)
    requires cells != []
    ensures |Line(cells)| == Sum(cells) + |cells| - 1
    decreases |cells|
  {
    assert Bare(cells)[1..] == Bare(cells[1..]);
    if |cells| > 1 {
      LineLength(cells[1..]);
    }
  }

  lemma {:induction false} SumBound(cells: seq<Text>, bound: nat)
    requires forall i :: 0 <= i < |cells| ==> |cells[i]| <= bound
    ensures Sum(cells) <= bound * |cells|
  {
    if cells != [] {
      SumBound(cells[1..], bound);
    }
  }

  lemma HeaderIsPlain(m: Envelope, crc: CrcMode)
    requires Validate(m, Csv, crc).Ok?
    ensures AllPlain(HeaderCells(m))
  {
    ValidNames(m, crc);
    hide Validate, PlainText, WriteInt, WriteText;
    IntCellIsPlain(m.protocolVersion);
    IntCellIsPlain(m.kind);
    IntCellIsPlain(m.requestId);
    IntCellIsPlain(m.sequence);
    IntCellIsPlain(m.uptimeMs);
    IntCellIsPlain(m.runEpoch);
  }

  lemma U32CellIsShort(v: Option<u32>)
    ensures |WriteInt(v)| <= 10
  {
    IntCellIsPlain(v);
  }

  lemma TextCellIsShort(v: Option<Text>, capacity: nat)
    requires v.Some? ==> |v.value| <= capacity
    ensures |WriteText(v)| <= capacity
  {
  }

  lemma HeaderIsShort(m: Envelope)
    ensures Sum(HeaderCells(m)) <= 637
  {
    hide WriteInt, WriteText;
    U32CellIsShort(m.protocolVersion);
    IntCellIsPlain(m.kind);
    TextCellIsShort(m.deviceId, 32);
    TextCellIsShort(m.bootId, 16);
    TextCellIsShort(m.sessionId, 16);
    U32CellIsShort(m.requestId);
    U32CellIsShort(m.sequence);
    U32CellIsShort(m.uptimeMs);
    TextCellIsShort(m.payload, 512);
    U32CellIsShort(m.runEpoch);
    var c := HeaderCells(m);
    SumJoin(c[..5], c[5..]);
    assert c == c[..5] + c[5..];
    SumOfFive(c[..5]);
    SumOfFive(c[5..]);
  }

  lemma SumOfFive(c: seq<Text>)
    requires |c| == 5
    ensures Sum(c) == |c[0]| + |c[1]| + |c[2]| + |c[3]| + |c[4]|
  {
    assert c[1..][1..] == c[2..] && c[2..][1..] == c[3..] && c[3..][1..] == c[4..] && c[4..][1..] == [];
    assert Sum(c[4..]) == |c[4]|;
    assert Sum(c[3..]) == |c[3]| + Sum(c[4..]);
    assert Sum(c[2..]) == |c[2]| + Sum(c[3..]);
    assert Sum(c[1..]) == |c[1]| + Sum(c[2..]);
  }

  predicate SmallPlain(text: Text) {
    PlainText(text) && |text| <= 16
  }

  lemma IntCellIsSmall(v: Option<int>)
    requires v.Some? ==> -0x8000_0000 <= v.value <= U32_MAX
    ensures SmallPlain(WriteInt(v))
  {
    IntCellIsPlain(v);
  }

  lemma BoolCellIsSmall(v: Option<bool>)
    ensures SmallPlain(WriteBool(v))
  {
  }

  lemma FloatCellIsSmall(f: FloatText, v: Option<u32>)
    requires Lawful(f) && (v.Some? ==> PlausibleTemperature(v.value))
    ensures SmallPlain(WriteFloat(f, v))
  {
  }

  predicate AllSmall(cells: seq<Text>) {
    |cells| <= 10 && forall i :: 0 <= i < |cells| ==> SmallPlain(cells[i])
  }

  lemma BodyIsSmall(f: FloatText, m: Envelope, crc: CrcMode)
    requires Lawful(f) && Validate(m, Csv, crc).Ok? && BodyCells(f, m).Some?
    ensures AllSmall(BodyCells(f, m).value)
  {
    if m.status.Some? && m.status.value.temperature.Some? {
      ValidTemperature(m, crc);
    }
    hide Validate, WriteInt, WriteBool, WriteFloat, SmallPlain, Lawful, PlausibleTemperature;
    if m.kind == Some(2) {
      var c := m.configure.value;
      IntCellIsSmall(c.payloadBytes);
      IntCellIsSmall(c.patternSeed);
      IntCellIsSmall(c.statusPeriodUs);
      IntCellIsSmall(c.healthPeriodUs);
      IntCellIsSmall(c.leaseMs);
    } else if m.kind == Some(11) {
      LimitsAreSmall(m.limits.value);
    } else if m.kind == Some(12) {
      IntCellIsSmall(m.result.value.code);
      IntCellIsSmall(m.result.value.leaseRemainingMs);
    } else if m.kind == Some(21) {
      FloatCellIsSmall(f, m.status.value.temperature);
      IntCellIsSmall(m.status.value.validity);
      BoolCellIsSmall(m.status.value.synthetic);
    } else if m.kind == Some(22) {
      var h := m.health.value;
      IntCellIsSmall(h.state);
      IntCellIsSmall(h.receivedRequests);
      IntCellIsSmall(h.rejectedDatagrams);
      IntCellIsSmall(h.sendErrors);
      IntCellIsSmall(h.skippedPublications);
    }
  }

  lemma LimitsAreSmall(l: Limits)
    ensures AllSmall(LimitsCells(l))
  {
    hide WriteInt, WriteBool, SmallPlain;
    IntCellIsSmall(l.encoding);
    BoolCellIsSmall(l.crcEnabled);
    IntCellIsSmall(l.maxPayloadBytes);
    IntCellIsSmall(l.maxDatagramBytes);
    IntCellIsSmall(l.minStatusPeriodUs);
    IntCellIsSmall(l.minHealthPeriodUs);
    IntCellIsSmall(l.maxPeriodUs);
    IntCellIsSmall(l.minLeaseMs);
    IntCellIsSmall(l.maxLeaseMs);
    BoolCellIsSmall(l.available);
  }

  /** Splitting a line of plain cells gives the cells. */
  lemma SplitInvertsLine(cells: seq<Text>)
    requires 0 < |cells| <= MAX_CELLS && AllPlain(cells)
    ensures CsvRecord.Accepts(Line(cells) + CsvRecord.CRLF)
    ensures Split(Line(cells) + CsvRecord.CRLF) == Ok(cells)
  {
    hide CsvRecord.Joined, CsvRecord.Accepts, CsvRecord.Fields;
    var bytes := Line(cells) + CsvRecord.CRLF;
    CsvRecord.FieldsInvertRender(bytes, Bare(cells));
    CsvRecord.AcceptsExactlyRecords(bytes);
    forall i | 0 <= i < |cells|
      ensures Utf8.Valid(Bare(cells)[i].text)
    {
      Utf8.AsciiIsValid(cells[i]);
    }
    assert Split(bytes).value == cells;
  }

  // ---------------------------------------------------------------------
  // Main results.

  /** Each body is present exactly when the kind calls for it. */
  predicate OnlyBodyOfKind(m: Envelope) {
    m.kind.Some? &&
    var kind := m.kind.value;
    m.capabilities.Some? == (kind == 1) && m.configure.Some? == (kind == 2) && m.renew.Some? == (kind == 3) &&
    m.stop.Some? == (kind == 4) && m.probe.Some? == (kind == 5) && m.limits.Some? == (kind == 11) &&
    m.result.Some? == (kind == 12) && m.probeResponse.Some? == (kind == 15) && m.status.Some? == (kind == 21) &&
    m.health.Some? == (kind == 22) && kind in {1, 2, 3, 4, 5, 11, 12, 15, 21, 22}
  }

  lemma FirstBodies(m: Envelope)
    ensures var b := Bodies(m);
            b[0] == m.capabilities.Some? && b[1] == m.configure.Some? && b[2] == m.renew.Some? &&
            b[3] == m.stop.Some? && b[4] == m.probe.Some?
  {
  }

  lemma LastBodies(m: Envelope)
    ensures var b := Bodies(m);
            b[5] == m.limits.Some? && b[6] == m.result.Some? && b[7] == m.probeResponse.Some? &&
            b[8] == m.status.Some? && b[9] == m.health.Some?
  {
  }

  lemma ValidHasOnlyBodyOfKind(m: Envelope, crc: CrcMode)
    requires Validate(m, Csv, crc).Ok?
    ensures OnlyBodyOfKind(m)
  {
    forall j | 0 <= j < 10
      ensures m.kind.Some? && BodyMatchesKind(m, m.kind.value)
      ensures Bodies(m)[j] <==> j == BodyIndex(m.kind.value)
    {
      ValidBodies(m, crc, j);
    }
    FirstBodies(m);
    LastBodies(m);
    assert BodyMatchesKind(m, m.kind.value) by { ValidBodies(m, crc, 0); }
    hide Validate, Bodies;
    var b := Bodies(m);
    assert b[0] == (BodyIndex(m.kind.value) == 0) && b[1] == (BodyIndex(m.kind.value) == 1) &&
           b[2] == (BodyIndex(m.kind.value) == 2);
    assert b[3] == (BodyIndex(m.kind.value) == 3) && b[4] == (BodyIndex(m.kind.value) == 4) &&
           b[5] == (BodyIndex(m.kind.value) == 5);
    assert b[6] == (BodyIndex(m.kind.value) == 6) && b[7] == (BodyIndex(m.kind.value) == 7) &&
           b[8] == (BodyIndex(m.kind.value) == 8);
  }

  /** The body cells of a valid message read back to exactly that message. */
  lemma BodyRoundTrip(f: FloatText, m: Envelope, crc: CrcMode)
    requires Lawful(f) && Validate(m, Csv, crc).Ok?
    ensures BodyCells(f, m).Some?
    ensures ReadBody(f, WithPayload(HeaderPart(m)), BodyCells(f, m).value) == Ok(m)
  {
    ValidHasOnlyBodyOfKind(m, crc);
    ValidNames(m, crc);
    if m.status.Some? && m.status.value.temperature.Some? {
      ValidTemperature(m, crc);
    }
    hide Validate, Lawful, PlausibleTemperature, NamesNonEmpty, PlainText;
    PayloadRestored(m);
    BodyOfKindRoundTrip(f, m);
  }

  lemma PayloadRestored(m: Envelope)
    requires m.kind.Some? && (m.payload.Some? <==> CarriesPayload(m.kind.value))
    ensures WithPayload(HeaderPart(m)) == HeaderPart(m).(payload := m.payload)
  {
  }

  lemma CellCounts(f: FloatText, m: Envelope)
    ensures m.configure.Some? ==> |ConfigurationCells(m.configure.value)| == 5
    ensures m.limits.Some? ==> |LimitsCells(m.limits.value)| == 10
    ensures m.result.Some? ==> |ResultCells(m.result.value)| == 2
    ensures m.status.Some? ==> |StatusCells(f, m.status.value)| == 3
    ensures m.health.Some? ==> |HealthCells(m.health.value)| == 5
  {
  }

  lemma BodyOfKindRoundTrip(f: FloatText, m: Envelope)
    requires Lawful(f) && OnlyBodyOfKind(m)
    requires m.status.Some? && m.status.value.temperature.Some? ==>
               PlausibleTemperature(m.status.value.temperature.value)
    ensures BodyCells(f, m).Some?
    ensures ReadBody(f, HeaderPart(m).(payload := m.payload), BodyCells(f, m).value) == Ok(m)
  {
    hide Lawful, PlausibleTemperature, ReadConfiguration, ReadLimits, ReadResult, ReadStatus, ReadHealth;
    hide ConfigurationCells, LimitsCells, ResultCells, StatusCells, HealthCells;
    CellCounts(f, m);
    EmptyBody(m.capabilities);
    EmptyBody(m.renew);
    EmptyBody(m.stop);
    EmptyBody(m.probe);
    EmptyBody(m.probeResponse);
    if m.kind == Some(2) {
      ConfigurationRoundTrip(m.configure.value);
    } else if m.kind == Some(11) {
      LimitsRoundTrip(m.limits.value);
    } else if m.kind == Some(12) {
      ResultRoundTrip(m.result.value);
    } else if m.kind == Some(21) {
      StatusRoundTrip(f, m.status.value);
    } else if m.kind == Some(22) {
      HealthRoundTrip(m.health.value);
    }
  }

  /** A record that is long enough for its cells is the same in every buffer that can hold it. */
  lemma WrittenWithin(f: FloatText, m: Envelope, capacity: nat, enough: nat)
    requires Written(f, m, enough).Ok?
    ensures var record := Written(f, m, enough).value;
            Written(f, m, capacity) == if |record| <= capacity then Ok(record) else Err(Size)
  {
    hide Line, HeaderCells, BodyCells;
    var header := HeaderCells(m);
    var cells := header + BodyCells(f, m).value;
    LineOnlyGrows(cells, |header|);
    assert cells[..|header|] == header;
  }

  lemma CellsFit(header: seq<Text>, body: seq<Text>)
    requires |header| == 10 && Sum(header) <= 637 && AllSmall(body)
    ensures |header + body| <= MAX_CELLS
    ensures |Line(header)| <= |Line(header + body)| <= 816
  {
    hide Line;
    SumJoin(header, body);
    SumBound(body, 16);
    LineLength(header + body);
    LineLength(header);
  }

  /** A valid message always fits, with room to spare, and its record is one that splits and reads back to it. */
  lemma RecordRoundTrip(f: FloatText, m: Envelope, crc: CrcMode)
    requires Lawful(f) && Validate(m, Csv, crc).Ok?
    ensures Written(f, m, Framing.MAX_BODY).Ok?
    ensures var record := Written(f, m, Framing.MAX_BODY).value;
            0 < |record| <= 818 && CsvRecord.Accepts(record) && Split(record).Ok? &&
            CsvRead(f, Split(record).value) == Ok(m)
  {
    BodyRoundTrip(f, m, crc);
    HeaderIsPlain(m, crc);
    BodyIsSmall(f, m, crc);
    ValidNames(m, crc);
    HeaderIsShort(m);
    var header, body := HeaderCells(m), BodyCells(f, m).value;
    hide Validate, Lawful, NamesNonEmpty, HeaderCells, BodyCells, Line;
    hide Split, ReadHeader, ReadBody, HeaderPart, Sum, CsvRecord.Accepts;
    hide WithPayload, PlainText;
    CellsFit(header, body);
    assert AllPlain(header + body) by { PlainJoin(header, body); }
    SplitInvertsLine(header + body);
    HeaderRoundTrip(m, body);
    assert (header + body)[10..] == body;
  }

  lemma PlainJoin(header: seq<Text>, body: seq<Text>)
    requires AllPlain(header) && AllSmall(body)
    ensures AllPlain(header + body)
  {
  }

  /** What encoding a valid message comes to. */
  lemma EncodedIs(f: FloatText, crc: CrcMode, m: Envelope, room: nat)
    requires Validate(m, Csv, crc).Ok? && Written(f, m, Framing.MAX_BODY).Ok?
    ensures var record := Written(f, m, Framing.MAX_BODY).value;
            |record| <= Framing.MAX_BODY &&
            Encode(f, crc, m, room) ==
              if |record| + Framing.Extra(crc) <= room then Ok(Framing.Sealed(crc, record)) else Err(Size)
  {
    WrittenWithin(f, m, if room < Framing.MAX_BODY then room else Framing.MAX_BODY, Framing.MAX_BODY);
    WrittenFits(f, m, Framing.MAX_BODY);
    hide Validate, Written, Framing.Sealed;
  }

  /** Decoding undoes encoding in both framing modes, and only invalid messages or too little room can prevent it. */
  lemma DatagramRoundTrip(f: FloatText, crc: CrcMode, m: Envelope, room: nat)
    requires Lawful(f)
    ensures Encode(f, crc, m, room).Ok? ==> Decode(f, crc, Encode(f, crc, m, room).value) == Ok(Normalized(m))
    ensures room >= 818 + Framing.Extra(crc) ==> (Encode(f, crc, m, room).Ok? <==> Validate(m, Csv, crc).Ok?)
  {
    if Validate(m, Csv, crc).Ok? {
      RecordRoundTrip(f, m, crc);
      EncodedIs(f, crc, m, room);
      var record := Written(f, m, Framing.MAX_BODY).value;
      Framing.OpenAcceptsExactlySealed(crc, Framing.Sealed(crc, record), record);
      DecodedIs(f, crc, m, Framing.Sealed(crc, record), record);
    } else {
      hide Validate, Written;
    }
  }

  lemma DecodedIs(f: FloatText, crc: CrcMode, m: Envelope, datagram: Text, record: Text)
    ensures Framing.Open(crc, datagram) == Ok(record) && record != [] && Split(record).Ok? &&
            CsvRead(f, Split(record).value) == Ok(m) && Validate(m, Csv, crc).Ok? ==>
              Decode(f, crc, datagram) == Ok(Normalized(m))
  {
    hide Validate, Split, CsvRead, Framing.Open;
  }

  /** A body that is no record, has a field that is no text, or too few columns is a decoding error. */
  lemma UndecodableIsRefused(f: FloatText, crc: CrcMode, datagram: Text, body: Text)
    requires Framing.Open(crc, datagram) == Ok(body)
    requires match CsvRecord.Fields(body)
             case None => true
             case Some(fields) =>
               |fields| < 10 || |fields| > 20 || exists i :: 0 <= i < |fields| && !Utf8.Valid(fields[i].text)
    ensures Decode(f, crc, datagram) == Err(CodecError.Decode)
  {
    hide CsvRecord.Fields, Framing.Open, Validate, ReadHeader, ReadBody, Utf8.Valid;
  }

  /** A record whose common columns can be read, but whose kind has no body, is invalid. */
  lemma UnknownKindIsInvalid(f: FloatText, crc: CrcMode, datagram: Text, body: Text)
    requires Framing.Open(crc, datagram) == Ok(body) && body != [] && Split(body).Ok? && |Split(body).value| >= 10
    requires ReadHeader(Split(body).value).Ok?
    requires var kind := ReadHeader(Split(body).value).value.kind;
             kind.None? || !(1 <= kind.value <= 5 || 11 <= kind.value <= 12 || kind.value in {15, 21, 22})
    ensures Decode(f, crc, datagram) == Err(Validation)
  {
    hide Split, Framing.Open, Validate, ReadHeader;
  }

  /** Every decoded message is valid, and its temperature, if any, is not a negative zero. */
  lemma DecodedIsValid(f: FloatText, crc: CrcMode, datagram: Text)
    ensures Decode(f, crc, datagram).Ok? ==>
              var m := Decode(f, crc, datagram).value;
              Validate(m, Csv, crc).Ok? && Normalized(m) == m &&
              (m.status.Some? ==> m.status.value.temperature != Some(0x8000_0000))
  {
    if Decode(f, crc, datagram).Err? {
      return;
    }
    var m := CsvRead(f, Split(Framing.Open(crc, datagram).value).value).value;
    hide Split, CsvRead, Framing.Open;
    NormalizedIsValid(m, crc);
  }

  /** Normalizing takes the sign from a negative zero and leaves everything else as it is. */
  lemma OnlyTheSignOfZeroIsLost(m: Envelope)
    ensures Normalized(m) == m || (m.status.Some? && m.status.value.temperature == Some(0x8000_0000))
    ensures m.status.Some? && m.status.value.temperature == Some(0x8000_0000) ==>
              Normalized(m) == m.(status := Some(m.status.value.(temperature := Some(0))))
  {
  }

  lemma NormalizedIsValid(m: Envelope, crc: CrcMode)
    requires Validate(m, Csv, crc).Ok?
    ensures Validate(Normalized(m), Csv, crc).Ok?
  {
    if Normalized(m) != m {
      hide Count, HeaderMatchesKind, ResultValid, LimitsValid, DeviceId, Nonce;
      assert Bodies(Normalized(m)) == Bodies(m);
      assert HeaderMatchesKind(Normalized(m), m.kind.value) by { SameHeader(m, m.kind.value); }
      assert Messaging.Bodies(AsPublication(Normalized(m))) == Messaging.Bodies(AsPublication(m));
      hide Bodies, Messaging.Bodies;
    }
  }

  lemma SameHeader(m: Envelope, kind: i32)
    ensures HeaderMatchesKind(Normalized(m), kind) == HeaderMatchesKind(m, kind)
  {
  }
}
