/** The benchmark schema as one strict CSV record. */
module BenchmarkCsv {
  import opened Machine
  import opened Messages
  import opened Benchmark
  import opened Cells
  import CsvRecord
  import Utf8

  const MAX_CELLS: nat := 20

  // ---------------------------------------------------------------------
  // Which cells a message is written as.

  function HeaderCells(m: Envelope): (cells: seq<Text>)
    ensures |cells| == 10
  {
    [WriteInt(m.protocolVersion), WriteInt(m.kind), WriteText(m.deviceId), WriteText(m.bootId),
     WriteText(m.sessionId), WriteInt(m.requestId), WriteInt(m.sequence), WriteInt(m.uptimeMs),
     WriteText(m.payload), WriteInt(m.runEpoch)]
  }

  function ConfigurationCells(c: Configuration): seq<Text> {
    [WriteInt(c.payloadBytes), WriteInt(c.patternSeed), WriteInt(c.statusPeriodUs), WriteInt(c.healthPeriodUs),
     WriteInt(c.leaseMs)]
  }

  function LimitsCells(l: Limits): seq<Text> {
    [WriteInt(l.encoding), WriteBool(l.crcEnabled), WriteInt(l.maxPayloadBytes), WriteInt(l.maxDatagramBytes),
     WriteInt(l.minStatusPeriodUs), WriteInt(l.minHealthPeriodUs), WriteInt(l.maxPeriodUs), WriteInt(l.minLeaseMs),
     WriteInt(l.maxLeaseMs), WriteBool(l.available)]
  }

  function ResultCells(r: ControlResult): seq<Text> {
    [WriteInt(r.code), WriteInt(r.leaseRemainingMs)]
  }

  function StatusCells(f: FloatText, s: Status): seq<Text> {
    [WriteFloat(f, s.temperature), WriteInt(s.validity), WriteBool(s.synthetic)]
  }

  function HealthCells(h: Health): seq<Text> {
    [WriteInt(h.state), WriteInt(h.receivedRequests), WriteInt(h.rejectedDatagrams), WriteInt(h.sendErrors),
     WriteInt(h.skippedPublications)]
  }

  /** The cells of the body that the kind calls for, if that body is there. */
  function BodyCells(f: FloatText, m: Envelope): Option<seq<Text>> {
    match m.kind
    case Some(1) => if m.capabilities.Some? then Some([]) else None
    case Some(2) => if m.configure.Some? then Some(ConfigurationCells(m.configure.value)) else None
    case Some(3) => if m.renew.Some? then Some([]) else None
    case Some(4) => if m.stop.Some? then Some([]) else None
    case Some(5) => if m.probe.Some? then Some([]) else None
    case Some(11) => if m.limits.Some? then Some(LimitsCells(m.limits.value)) else None
    case Some(12) => if m.result.Some? then Some(ResultCells(m.result.value)) else None
    case Some(15) => if m.probeResponse.Some? then Some([]) else None
    case Some(21) => if m.status.Some? then Some(StatusCells(f, m.status.value)) else None
    case Some(22) => if m.health.Some? then Some(HealthCells(m.health.value)) else None
    case _ => None
  }

  /** Cells are written without quotes. */
  function Bare(cells: seq<Text>): (fields: seq<CsvRecord.Field>)
    ensures |fields| == |cells|
    ensures forall i :: 0 <= i < |cells| ==> fields[i] == CsvRecord.Bare(cells[i])
  {
    seq(|cells|, i requires 0 <= i < |cells| => CsvRecord.Bare(cells[i]))
  }

  function Line(cells: seq<Text>): Text {
    CsvRecord.Joined(Bare(cells))
  }

  /** The record of a message in a buffer of a given size; a header that does not fit is noticed before the body. */
  function Written(f: FloatText, m: Envelope, capacity: nat): Result<Text, CodecError> {
    if |Line(HeaderCells(m))| > capacity then Err(Size)
    else match BodyCells(f, m)
      case None => Err(Validation)
      case Some(body) =>
        var record := Line(HeaderCells(m) + body) + CsvRecord.CRLF;
        if |record| > capacity then Err(Size) else Ok(record)
  }

  // ---------------------------------------------------------------------
  // The writer.

  lemma {:induction false} JoinedGrows(fields: seq<CsvRecord.Field>, f: CsvRecord.Field)
    ensures CsvRecord.Joined(fields + [f])
         == CsvRecord.Joined(fields) + (if fields == [] then [] else [CsvRecord.COMMA]) + CsvRecord.RenderField(f)
    decreases |fields|
  {
    hide CsvRecord.RenderField;
    if fields != [] {
      assert (fields + [f])[0] == fields[0] && (fields + [f])[1..] == fields[1..] + [f];
      JoinedGrows(fields[1..], f);
    }
  }

  lemma LineGrows(cells: seq<Text>, i: nat)
    requires i < |cells|
    ensures Line(cells[..i + 1]) == Line(cells[..i]) + (if i == 0 then [] else [CsvRecord.COMMA]) + cells[i]
  {
    assert Bare(cells[..i + 1]) == Bare(cells[..i]) + [CsvRecord.Bare(cells[i])];
    JoinedGrows(Bare(cells[..i]), CsvRecord.Bare(cells[i]));
  }

  lemma {:induction false} LineOnlyGrows(cells: seq<Text>, i: nat)
    requires i <= |cells|
    ensures |Line(cells[..i])| <= |Line(cells)|
    decreases |cells| - i
  {
    hide Line;
    if i < |cells| {
      LineGrows(cells, i);
      LineOnlyGrows(cells, i + 1);
    } else {
      assert cells[..i] == cells;
    }
  }

  /** Appends cells to a caller's buffer, whose first `capacity` bytes it may use. */
  class CsvOutput {
    const out: array<Byte>
    const capacity: nat
    var used: nat
    var count: nat

    ghost predicate Valid()
      reads this
    {
      used <= capacity <= out.Length
    }

    ghost function Contents(): Text
      reads this, out
      requires Valid()
    {
      out[..used]
    }

    constructor (out: array<Byte>, capacity: nat)
      requires capacity <= out.Length
      ensures Valid() && this.out == out && this.capacity == capacity && Contents() == [] && count == 0
    {
      this.out := out;
      this.capacity := capacity;
      used := 0;
      count := 0;
    }

    method Append(bytes: Text) returns (r: Result<(), CodecError>)
      requires Valid()
      modifies this`used, out
      ensures Valid() && out[capacity..] == old(out[capacity..])
      ensures r == if |bytes| <= capacity - old(used) then Ok(()) else Err(Size)
      ensures Contents() == if r.Ok? then old(Contents()) + bytes else old(Contents())
    {
      if |bytes| > capacity - used {
        return Err(Size);
      }
      forall i | 0 <= i < |bytes| {
        out[used + i] := bytes[i];
      }
      used := used + |bytes|;
      assert out[..used] == old(Contents()) + bytes;
      return Ok(());
    }

    method Field(cell: Text) returns (r: Result<(), CodecError>)
      requires Valid()
      modifies this, out
      ensures Valid() && out[capacity..] == old(out[capacity..])
      ensures var more := (if old(count) > 0 then [CsvRecord.COMMA] else []) + cell;
              r == if old(used) + |more| <= capacity then Ok(()) else Err(Size)
      ensures r.Ok? ==> count == old(count) + 1
      ensures r.Ok? ==> Contents() == old(Contents()) + ((if old(count) > 0 then [CsvRecord.COMMA] else []) + cell)
    {
      if count > 0 {
        var _ :- Append([CsvRecord.COMMA]);
      }
      count := count + 1;
      r := Append(cell);
    }

    method Finish() returns (r: Result<nat, CodecError>)
      requires Valid()
      modifies this`used, out
      ensures Valid() && out[capacity..] == old(out[capacity..])
      ensures r.Ok? <==> old(used) + 2 <= capacity
      ensures r.Ok? ==> r.value == used && Contents() == old(Contents()) + CsvRecord.CRLF
      ensures r.Err? ==> r.error == Size
    {
      var _ :- Append(CsvRecord.CRLF);
      return Ok(used);
    }

    /** The remaining cells of a list, of which some have been written. */
    method Fields(cells: seq<Text>, from: nat) returns (r: Result<(), CodecError>)
      requires Valid() && from <= |cells| && count == from && Contents() == Line(cells[..from])
      modifies this, out
      ensures Valid() && out[capacity..] == old(out[capacity..])
      ensures r == if |Line(cells)| <= capacity then Ok(()) else Err(Size)
      ensures r.Ok? ==> count == |cells| && Contents() == Line(cells)
    {
      hide Line;
      for i := from to |cells|
        invariant Valid() && out[capacity..] == old(out[capacity..])
        invariant count == i && Contents() == Line(cells[..i])
      {
        LineGrows(cells, i);
        LineOnlyGrows(cells, i + 1);
        var _ :- Field(cells[i]);
      }
      assert cells[..|cells|] == cells;
      return Ok(());
    }
  }

  /** Writes the record of a message; bytes beyond the capacity are never touched. */
  method CsvWrite(f: FloatText, m: Envelope, out: array<Byte>, capacity: nat) returns (r: Result<nat, CodecError>)
    requires capacity <= out.Length
    modifies out
    ensures out[capacity..] == old(out[capacity..])
    ensures match Written(f, m, capacity)
            case Ok(record) => r == Ok(|record|) && |record| <= capacity && out[..|record|] == record
            case Err(e) => r == Err(e)
  {
    hide HeaderCells, BodyCells, Line;
    var writer := new CsvOutput(out, capacity);
    var header := HeaderCells(m);
    assert header[..0] == [] && Line([]) == [] by { EmptyLine(); }
    var _ :- writer.Fields(header, 0);
    var body := BodyCells(f, m);
    if body.None? {
      return Err(Validation);
    }
    assert (header + body.value)[..|header|] == header;
    var _ :- writer.Fields(header + body.value, |header|);
    r := writer.Finish();
  }

  lemma EmptyLine()
    ensures Line([]) == []
  {
  }

  // ---------------------------------------------------------------------
  // The reader.

  /** The values of a record's fields, as text. */
  function Split(bytes: Text): Result<seq<Text>, CodecError> {
    match CsvRecord.Fields(bytes)
    case None => Err(Decode)
    case Some(fields) =>
      if |fields| > MAX_CELLS || exists i :: 0 <= i < |fields| && !Utf8.Valid(fields[i].text) then Err(Decode)
      else Ok(seq(|fields|, i requires 0 <= i < |fields| => fields[i].text))
  }

  function ReadHeader(cells: seq<Text>): Result<Envelope, CodecError>
    requires |cells| >= 10
  {
    var protocolVersion :- CellU32(cells[0]);
    var kind :- CellI32(cells[1]);
    var deviceId :- CellText(cells[2], 32);
    var bootId :- CellText(cells[3], 16);
    var sessionId :- CellText(cells[4], 16);
    var requestId :- CellU32(cells[5]);
    var sequence :- CellU32(cells[6]);
    var uptimeMs :- CellU32(cells[7]);
    var payload :- CellText(cells[8], 512);
    var runEpoch :- CellU32(cells[9]);
    Ok(BLANK.(
      protocolVersion := protocolVersion, kind := kind, deviceId := deviceId, bootId := bootId,
      sessionId := sessionId, requestId := requestId, sequence := sequence, uptimeMs := uptimeMs,
      payload := payload, runEpoch := runEpoch))
  }

  function ReadConfiguration(c: seq<Text>): Result<Configuration, CodecError>
    requires |c| == 5
  {
    var payloadBytes :- CellU32(c[0]);
    var patternSeed :- CellU32(c[1]);
    var statusPeriodUs :- CellU32(c[2]);
    var healthPeriodUs :- CellU32(c[3]);
    var leaseMs :- CellU32(c[4]);
    Ok(Configuration(payloadBytes, patternSeed, statusPeriodUs, healthPeriodUs, leaseMs))
  }

  function ReadLimits(c: seq<Text>): Result<Limits, CodecError>
    requires |c| == 10
  {
    var encoding :- CellI32(c[0]);
    var crcEnabled :- CellBool(c[1]);
    var maxPayloadBytes :- CellU32(c[2]);
    var maxDatagramBytes :- CellU32(c[3]);
    var minStatusPeriodUs :- CellU32(c[4]);
    var minHealthPeriodUs :- CellU32(c[5]);
    var maxPeriodUs :- CellU32(c[6]);
    var minLeaseMs :- CellU32(c[7]);
    var maxLeaseMs :- CellU32(c[8]);
    var available :- CellBool(c[9]);
    Ok(Limits(encoding, crcEnabled, maxPayloadBytes, maxDatagramBytes, minStatusPeriodUs, minHealthPeriodUs,
              maxPeriodUs, minLeaseMs, maxLeaseMs, available))
  }

  function ReadResult(c: seq<Text>): Result<ControlResult, CodecError>
    requires |c| == 2
  {
    var code :- CellI32(c[0]);
    var leaseRemainingMs :- CellU32(c[1]);
    Ok(ControlResult(code, leaseRemainingMs))
  }

  function ReadStatus(f: FloatText, c: seq<Text>): Result<Status, CodecError>
    requires |c| == 3
  {
    var temperature :- CellFloat(f, c[0]);
    var validity :- CellI32(c[1]);
    var synthetic :- CellBool(c[2]);
    Ok(Status(temperature, validity, synthetic))
  }

  function ReadHealth(c: seq<Text>): Result<Health, CodecError>
    requires |c| == 5
  {
    var state :- CellI32(c[0]);
    var receivedRequests :- CellU32(c[1]);
    var rejectedDatagrams :- CellU32(c[2]);
    var sendErrors :- CellU32(c[3]);
    var skippedPublications :- CellU32(c[4]);
    Ok(Health(state, receivedRequests, rejectedDatagrams, sendErrors, skippedPublications))
  }

  /** The body that the kind calls for, from exactly as many cells as it needs. */
  function ReadBody(f: FloatText, m: Envelope, c: seq<Text>): Result<Envelope, CodecError> {
    match m.kind
    case Some(1) => if |c| != 0 then Err(Decode) else Ok(m.(capabilities := Some(Empty.Empty)))
    case Some(2) =>
      if |c| != 5 then Err(Decode) else var body :- ReadConfiguration(c); Ok(m.(configure := Some(body)))
    case Some(3) => if |c| != 0 then Err(Decode) else Ok(m.(renew := Some(Empty.Empty)))
    case Some(4) => if |c| != 0 then Err(Decode) else Ok(m.(stop := Some(Empty.Empty)))
    case Some(5) => if |c| != 0 then Err(Decode) else Ok(m.(probe := Some(Empty.Empty)))
    case Some(11) =>
      if |c| != 10 then Err(Decode) else var body :- ReadLimits(c); Ok(m.(limits := Some(body)))
    case Some(12) =>
      if |c| != 2 then Err(Decode) else var body :- ReadResult(c); Ok(m.(result := Some(body)))
    case Some(15) => if |c| != 0 then Err(Decode) else Ok(m.(probeResponse := Some(Empty.Empty)))
    case Some(21) =>
      if |c| != 3 then Err(Decode) else var body :- ReadStatus(f, c); Ok(m.(status := Some(body)))
    case Some(22) =>
      if |c| != 5 then Err(Decode) else var body :- ReadHealth(c); Ok(m.(health := Some(body)))
    case _ => Err(Validation)
  }

  /** An empty payload cell is a present payload for the kinds that carry one. */
  function WithPayload(m: Envelope): Envelope {
    if m.kind.Some? && CarriesPayload(m.kind.value) && m.payload.None? then m.(payload := Some([])) else m
  }

  function CsvRead(f: FloatText, cells: seq<Text>): Result<Envelope, CodecError> {
    if |cells| < 10 then Err(Decode)
    else
      var header :- ReadHeader(cells);
      ReadBody(f, WithPayload(header), cells[10..])
  }

  // ---------------------------------------------------------------------
  // Reading undoes writing.

  /** The part of a message that its header cells carry; an empty payload is not distinguishable from none. */
  function HeaderPart(m: Envelope): Envelope {
    m.(payload := if m.payload == Some([]) then None else m.payload,
       capabilities := None, configure := None, renew := None, stop := None, probe := None, limits := None,
       result := None, probeResponse := None, status := None, health := None)
  }

  /** No text cell that would be taken for an absent one. */
  predicate NamesNonEmpty(m: Envelope) {
    m.deviceId != Some([]) && m.bootId != Some([]) && m.sessionId != Some([])
  }

  lemma HeaderRoundTrip(m: Envelope, body: seq<Text>)
    requires NamesNonEmpty(m)
    ensures ReadHeader(HeaderCells(m) + body) == Ok(HeaderPart(m))
  {
    hide CellU32, CellI32, CellText, WriteInt, WriteText;
    var payload := if m.payload == Some([]) then None else m.payload;
    U32CellRoundTrip(m.protocolVersion);
    I32CellRoundTrip(m.kind);
    TextCellRoundTrip(m.deviceId, 32);
    TextCellRoundTrip(m.bootId, 16);
    TextCellRoundTrip(m.sessionId, 16);
    U32CellRoundTrip(m.requestId);
    U32CellRoundTrip(m.sequence);
    U32CellRoundTrip(m.uptimeMs);
    TextCellRoundTrip(payload, 512);
    EmptyPayloadCell(m.payload);
    U32CellRoundTrip(m.runEpoch);
  }

  lemma EmptyPayloadCell(payload: Option<Text512>)
    ensures WriteText(payload) == WriteText(if payload == Some([]) then None else payload)
  {
  }

  lemma ConfigurationRoundTrip(c: Configuration)
    ensures ReadConfiguration(ConfigurationCells(c)) == Ok(c)
  {
    hide CellU32, WriteInt;
    U32CellRoundTrip(c.payloadBytes);
    U32CellRoundTrip(c.patternSeed);
    U32CellRoundTrip(c.statusPeriodUs);
    U32CellRoundTrip(c.healthPeriodUs);
    U32CellRoundTrip(c.leaseMs);
  }

  lemma LimitsRoundTrip(l: Limits)
    ensures ReadLimits(LimitsCells(l)) == Ok(l)
  {
    hide CellU32, CellI32, CellBool, WriteInt, WriteBool;
    I32CellRoundTrip(l.encoding);
    BoolCellRoundTrip(l.crcEnabled);
    U32CellRoundTrip(l.maxPayloadBytes);
    U32CellRoundTrip(l.maxDatagramBytes);
    U32CellRoundTrip(l.minStatusPeriodUs);
    U32CellRoundTrip(l.minHealthPeriodUs);
    U32CellRoundTrip(l.maxPeriodUs);
    U32CellRoundTrip(l.minLeaseMs);
    U32CellRoundTrip(l.maxLeaseMs);
    BoolCellRoundTrip(l.available);
  }

  lemma ResultRoundTrip(r: ControlResult)
    ensures ReadResult(ResultCells(r)) == Ok(r)
  {
    hide CellU32, CellI32, WriteInt;
    I32CellRoundTrip(r.code);
    U32CellRoundTrip(r.leaseRemainingMs);
  }

  lemma StatusRoundTrip(f: FloatText, s: Status)
    requires Lawful(f) && (s.temperature.Some? ==> PlausibleTemperature(s.temperature.value))
    ensures ReadStatus(f, StatusCells(f, s)) == Ok(s)
  {
    hide CellFloat, CellI32, CellBool, WriteFloat, WriteInt, WriteBool, Lawful;
    FloatCellRoundTrip(f, s.temperature);
    I32CellRoundTrip(s.validity);
    BoolCellRoundTrip(s.synthetic);
  }

  lemma HealthRoundTrip(h: Health)
    ensures ReadHealth(HealthCells(h)) == Ok(h)
  {
    hide CellU32, CellI32, WriteInt;
    I32CellRoundTrip(h.state);
    U32CellRoundTrip(h.receivedRequests);
    U32CellRoundTrip(h.rejectedDatagrams);
    U32CellRoundTrip(h.sendErrors);
    U32CellRoundTrip(h.skippedPublications);
  }
}
