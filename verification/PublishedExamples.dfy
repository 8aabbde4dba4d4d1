/** The published example request, byte for byte: it pins field numbers, wire types and the order of fields. */
module GoldenRequest {
  import opened Machine
  import opened Messages
  import opened Messaging
  import opened MessagingProtobuf
  import opened Wire
  import Protobuf
  import Utf8

  const DEVICE: Text32 := [0x62, 0x6f, 0x61, 0x72, 0x64, 0x2d, 0x30, 0x31]

  const SESSION: Text16 :=
    [0x30, 0x31, 0x32, 0x33, 0x34, 0x35, 0x36, 0x37, 0x38, 0x39, 0x61, 0x62, 0x63, 0x64, 0x65, 0x66]

  /** A request for the device information of board-01. */
  const REQUEST := BLANK.(
    protocolVersion := Some(1), kind := Some(1), deviceId := Some(DEVICE), clientSession := Some(SESSION),
    requestId := Some(1), getDeviceInfo := Some(Empty.Empty))

  const BYTES: Text :=
    [0x08, 0x01] + [0x10, 0x01] + ([0x1a, 0x08] + DEVICE) + ([0x2a, 0x10] + SESSION) + [0x30, 0x01] + [0xa2, 0x01, 0x00]

  lemma Fields()
    ensures var m := ToPb(REQUEST);
            Get(m, 1) == Some(Number(1)) && Get(m, 2) == Some(Number(1)) && Get(m, 3) == Some(Characters(DEVICE)) &&
            Get(m, 4) == None && Get(m, 5) == Some(Characters(SESSION)) && Get(m, 6) == Some(Number(1)) &&
            Get(m, 7) == None && Get(m, 8) == None && m.body == Some(Protobuf.Body(20, Protobuf.EMPTY))
  {
  }

  lemma SmallVarint(n: nat)
    requires n < 128
    ensures Varint(n) == [n]
  {
  }

  lemma NumberField(number: Protobuf.FieldNumber, kind: Kind, m: Message, n: nat)
    requires number < 16 && n < 128 && kind in {Varint32, Int32} && Get(m, number) == Some(Number(n))
    ensures Protobuf.EncodeField(Protobuf.Field(number, kind), m) == [number * 8, n]
  {
    SmallVarint(number * 8);
    SmallVarint(n);
    hide Varint;
  }

  lemma TextField(number: Protobuf.FieldNumber, capacity: nat, m: Message, text: Text)
    requires number < 16 && Get(m, number) == Some(Characters(text))
    requires |text| <= capacity < 128 && forall i :: 0 <= i < |text| ==> text[i] <= 0x7F
    ensures Protobuf.EncodeField(Protobuf.Field(number, Chars(capacity)), m) == [number * 8 + 2, |text|] + text
  {
    Utf8.AsciiIsValid(text);
    SmallVarint(number * 8 + 2);
    SmallVarint(|text|);
    hide Varint, Utf8.Valid;
  }

  lemma AbsentField(number: Protobuf.FieldNumber, kind: Kind, m: Message)
    requires Get(m, number) == None
    ensures Protobuf.EncodeField(Protobuf.Field(number, kind), m) == []
  {
  }

  lemma EightFields(m: Message)
    ensures var e := (f: Protobuf.Field) => Protobuf.EncodeField(f, m);
            var t := ENVELOPE_FIELDS;
            Protobuf.EncodeFields(t, m) ==
              e(t[0]) + (e(t[1]) + (e(t[2]) + (e(t[3]) + (e(t[4]) + (e(t[5]) + (e(t[6]) + e(t[7])))))))
  {
    hide Protobuf.EncodeField;
    var t := ENVELOPE_FIELDS;
    assert t[1..][1..] == t[2..] && t[2..][1..] == t[3..] && t[3..][1..] == t[4..];
    assert t[4..][1..] == t[5..] && t[5..][1..] == t[6..] && t[6..][1..] == t[7..] && t[7..][1..] == [];
    assert Protobuf.EncodeFields(t[7..], m) == Protobuf.EncodeField(t[7], m);
    assert Protobuf.EncodeFields(t[6..], m) == Protobuf.EncodeField(t[6], m) + Protobuf.EncodeFields(t[7..], m);
    assert Protobuf.EncodeFields(t[5..], m) == Protobuf.EncodeField(t[5], m) + Protobuf.EncodeFields(t[6..], m);
    assert Protobuf.EncodeFields(t[4..], m) == Protobuf.EncodeField(t[4], m) + Protobuf.EncodeFields(t[5..], m);
    assert Protobuf.EncodeFields(t[3..], m) == Protobuf.EncodeField(t[3], m) + Protobuf.EncodeFields(t[4..], m);
    assert Protobuf.EncodeFields(t[2..], m) == Protobuf.EncodeField(t[2], m) + Protobuf.EncodeFields(t[3..], m);
    assert Protobuf.EncodeFields(t[1..], m) == Protobuf.EncodeField(t[1], m) + Protobuf.EncodeFields(t[2..], m);
  }

  lemma RequestParts()
    ensures var (t, m) := (ENVELOPE_FIELDS, ToPb(REQUEST));
            Protobuf.EncodeField(t[0], m) == [0x08, 0x01] && Protobuf.EncodeField(t[1], m) == [0x10, 0x01] &&
            Protobuf.EncodeField(t[2], m) == [0x1a, 0x08] + DEVICE && Protobuf.EncodeField(t[3], m) == [] &&
            Protobuf.EncodeField(t[4], m) == [0x2a, 0x10] + SESSION &&
            Protobuf.EncodeField(t[5], m) == [0x30, 0x01] && Protobuf.EncodeField(t[6], m) == [] &&
            Protobuf.EncodeField(t[7], m) == []
  {
    var m := ToPb(REQUEST);
    Fields();
    hide ToPb, Get, Protobuf.EncodeField;
    NumberField(1, Varint32, m, 1);
    NumberField(2, Int32, m, 1);
    TextField(3, 32, m, DEVICE);
    AbsentField(4, Chars(16), m);
    TextField(5, 16, m, SESSION);
    NumberField(6, Varint32, m, 1);
    AbsentField(7, Varint32, m);
    AbsentField(8, Varint32, m);
  }

  lemma JoinParts(a: Text, b: Text, c: Text, d: Text, e: Text)
    ensures a + (b + (c + ([] + (d + (e + ([] + [])))))) == a + b + c + d + e
  {
  }

  lemma RequestFields()
    ensures Protobuf.EncodeFields(ENVELOPE_FIELDS, ToPb(REQUEST))
         == [0x08, 0x01] + [0x10, 0x01] + ([0x1a, 0x08] + DEVICE) + ([0x2a, 0x10] + SESSION) + [0x30, 0x01]
  {
    hide ToPb, Get, Protobuf.EncodeField, Protobuf.EncodeFields;
    RequestParts();
    EightFields(ToPb(REQUEST));
    JoinParts([0x08, 0x01], [0x10, 0x01], [0x1a, 0x08] + DEVICE, [0x2a, 0x10] + SESSION, [0x30, 0x01]);
  }

  lemma EmptyRecord()
    ensures Protobuf.Delimited(20, []) == [0xa2, 0x01, 0x00]
  {
    SmallVarint(0);
    SmallVarint(1);
    assert Varint(162) == [162 % 128 + 128] + Varint(1);
    hide Varint;
  }

  /** The example request encodes to exactly the published bytes, and they decode to exactly that request. */
  lemma RequestMatchesThePublishedBytes()
    ensures Messaging.Validate(REQUEST, Format.Protobuf).Ok?
    ensures Protobuf.Valid(ENVELOPE_TABLE, ToPb(REQUEST)) && Protobuf.Encode(ENVELOPE_TABLE, ToPb(REQUEST)) == BYTES
    ensures Protobuf.Decode(ENVELOPE_TABLE, Protobuf.EMPTY, BYTES) == Some(ToPb(REQUEST)) &&
            FromPb(ToPb(REQUEST)) == REQUEST
  {
    RequestIsValid();
    ValidEnvelopeRoundTrip(REQUEST);
    RequestFields();
    EmptyRecord();
    Fields();
    EnvelopeMember(0);
    hide Messaging.Validate, ToPb, FromPb, Get;
    hide Protobuf.Decode, Protobuf.EncodeFields, Protobuf.Delimited, Protobuf.Valid, Protobuf.TableOf;
    assert Protobuf.Encode(EMPTY_TABLE, Protobuf.EMPTY) == [] by { NothingEncodes(); }
  }

  lemma NothingEncodes()
    ensures Protobuf.Valid(EMPTY_TABLE, Protobuf.EMPTY) && Protobuf.Encode(EMPTY_TABLE, Protobuf.EMPTY) == []
  {
  }

  lemma RequestIsValid()
    ensures Messaging.Validate(REQUEST, Format.Protobuf).Ok?
  {
    CountSingle(Bodies(REQUEST), 0);
    assert SESSION[1] == 0x31;
  }
}

/** The published capabilities request as a CSV record, byte for byte. */
module GoldenCapabilities {
  import opened Machine
  import opened Messages
  import opened Benchmark
  import opened Cells
  import opened BenchmarkCsv
  import BenchmarkDatagram
  import CsvRecord
  import GoldenRequest

  const REQUEST := BLANK.(
    protocolVersion := Some(1), kind := Some(1), deviceId := Some(GoldenRequest.DEVICE),
    sessionId := Some(GoldenRequest.SESSION), requestId := Some(1), capabilities := Some(Empty.Empty))

  const BYTES: Text :=
    [0x31, 0x2c] + [0x31, 0x2c] + GoldenRequest.DEVICE + [0x2c, 0x2c] + GoldenRequest.SESSION +
    [0x2c, 0x31] + [0x2c, 0x2c, 0x2c, 0x2c] + [0x0d, 0x0a]

  lemma TenCells(c: seq<Text>)
    requires |c| == 10
    ensures Line(c) == c[0] + [0x2c] + c[1] + [0x2c] + c[2] + [0x2c] + c[3] + [0x2c] + c[4] + [0x2c] +
                       c[5] + [0x2c] + c[6] + [0x2c] + c[7] + [0x2c] + c[8] + [0x2c] + c[9]
  {
    hide Line;
    EmptyLine();
    assert c[..0] == [] && c[..10] == c;
    LineGrows(c, 0);
    LineGrows(c, 1);
    LineGrows(c, 2);
    LineGrows(c, 3);
    LineGrows(c, 4);
    LineGrows(c, 5);
    LineGrows(c, 6);
    LineGrows(c, 7);
    LineGrows(c, 8);
    LineGrows(c, 9);
  }

  lemma JoinsToBytes(device: Text, session: Text)
    ensures [0x31] + [0x2c] + [0x31] + [0x2c] + device + [0x2c] + [] + [0x2c] + session + [0x2c] + [0x31] + [0x2c] +
            [] + [0x2c] + [] + [0x2c] + [] + [0x2c] + [] + [0x0d, 0x0a]
         == [0x31, 0x2c] + [0x31, 0x2c] + device + [0x2c, 0x2c] + session + [0x2c, 0x31] + [0x2c, 0x2c, 0x2c, 0x2c] +
            [0x0d, 0x0a]
  {
  }

  lemma RequestIsValid(format: Format, crc: CrcMode)
    ensures Validate(REQUEST, format, crc).Ok?
  {
    assert GoldenRequest.SESSION[1] == 0x31;
    CountSingle(Bodies(REQUEST), 0);
  }

  /** The example request is written as exactly the published record, and read back from it. */
  lemma RequestMatchesThePublishedRecord(f: FloatText)
    ensures Written(f, REQUEST, 1016) == Ok(BYTES)
    ensures Lawful(f) ==> BenchmarkDatagram.Decode(f, Off, BYTES) == Ok(REQUEST)
  {
    RequestIsWritten(f);
    RequestIsValid(Csv, Off);
    hide Validate, Written, Lawful, BenchmarkDatagram.Decode;
    if Lawful(f) {
      BenchmarkDatagram.EncodedIs(f, Off, REQUEST, 1016);
      BenchmarkDatagram.DatagramRoundTrip(f, Off, REQUEST, 1016);
    }
  }

  lemma RequestIsWritten(f: FloatText)
    ensures Written(f, REQUEST, 1016) == Ok(BYTES)
  {
    assert Print(1) == [0x31];
    hide Print, Line;
    var cells := HeaderCells(REQUEST);
    assert BodyCells(f, REQUEST) == Some([]) && cells + [] == cells;
    TenCells(cells);
    JoinsToBytes(GoldenRequest.DEVICE, GoldenRequest.SESSION);
    assert Line(cells) + CsvRecord.CRLF == BYTES;
  }
}

/** A configure request as a CSV record: its columns come in the order that the benchmark profile lists. */
module GoldenConfigure {
  import opened Machine
  import opened Messages
  import opened Benchmark
  import opened Cells
  import opened BenchmarkCsv
  import BenchmarkDatagram
  import CsvRecord
  import GoldenRequest

  const BOOT: Text16 :=
    [0x66, 0x65, 0x64, 0x63, 0x62, 0x61, 0x39, 0x38, 0x37, 0x36, 0x35, 0x34, 0x33, 0x32, 0x31, 0x30]

  const REQUEST := BLANK.(
    protocolVersion := Some(1), kind := Some(2), deviceId := Some(GoldenRequest.DEVICE), bootId := Some(BOOT),
    sessionId := Some(GoldenRequest.SESSION), requestId := Some(2), runEpoch := Some(1),
    configure := Some(Configuration(Some(64), Some(723), Some(100000), Some(1000000), Some(10000))))

  /** The columns that all messages have, and those of a configure request. */
  const COLUMNS: seq<Text> :=
    [[0x31], [0x32], GoldenRequest.DEVICE, BOOT, GoldenRequest.SESSION, [0x32], [], [], [], [0x31]] +
    [[0x36, 0x34], [0x37, 0x32, 0x33], [0x31, 0x30, 0x30, 0x30, 0x30, 0x30],
     [0x31, 0x30, 0x30, 0x30, 0x30, 0x30, 0x30], [0x31, 0x30, 0x30, 0x30, 0x30]]

  lemma Numbers()
    ensures Print(1) == [0x31] && Print(2) == [0x32] && Print(64) == [0x36, 0x34] && Print(723) == [0x37, 0x32, 0x33]
    ensures Print(10000) == [0x31, 0x30, 0x30, 0x30, 0x30]
    ensures Print(100000) == [0x31, 0x30, 0x30, 0x30, 0x30, 0x30]
    ensures Print(1000000) == [0x31, 0x30, 0x30, 0x30, 0x30, 0x30, 0x30]
  {
    assert Digits(72) == [0x37, 0x32];
    assert Digits(100) == [0x31, 0x30, 0x30];
    assert Digits(1000) == Digits(100) + [0x30];
    assert Digits(10000) == Digits(1000) + [0x30];
    assert Digits(100000) == Digits(10000) + [0x30];
    assert Digits(1000000) == Digits(100000) + [0x30];
  }

  /** The record has the common columns and then those of a configure request, each in the order of the profile. */
  lemma RecordFollowsTheColumnOrder(f: FloatText)
    ensures HeaderCells(REQUEST) + ConfigurationCells(REQUEST.configure.value) == COLUMNS
    ensures Split(Line(COLUMNS) + CsvRecord.CRLF) == Ok(COLUMNS)
    ensures Written(f, REQUEST, 1016) == Ok(Line(COLUMNS) + CsvRecord.CRLF)
  {
    Numbers();
    hide Print, Line, Split;
    assert HeaderCells(REQUEST) == COLUMNS[..10];
    assert ConfigurationCells(REQUEST.configure.value) == COLUMNS[10..];
    assert BodyCells(f, REQUEST) == Some(ConfigurationCells(REQUEST.configure.value));
    BenchmarkDatagram.SplitInvertsLine(COLUMNS);
    BenchmarkDatagram.LineLength(COLUMNS);
    BenchmarkDatagram.SumBound(COLUMNS, 16);
    LineOnlyGrows(COLUMNS, 10);
  }

  lemma NamesAreValid()
    ensures DeviceId(Some(GoldenRequest.DEVICE)) && Nonce(Some(BOOT)) && Nonce(Some(GoldenRequest.SESSION))
  {
    assert BOOT[0] == 0x66 && GoldenRequest.SESSION[1] == 0x31;
  }

  lemma RequestIsValid(format: Format, crc: CrcMode)
    ensures Validate(REQUEST, format, crc).Ok?
  {
    NamesAreValid();
    hide DeviceId, Nonce, Count;
    CountSingle(Bodies(REQUEST), 1);
  }
}
