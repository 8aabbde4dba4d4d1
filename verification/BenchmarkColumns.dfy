/** The columns of a benchmark record: in the published order, and each with exactly one text for each value. */
module BenchmarkColumns {
  import opened Machine
  import opened Benchmark
  import opened Cells
  import opened BenchmarkCsv

  /** The columns of the profile, by name. */
  datatype Column =
    | ProtocolVersion | Kind | DeviceId | BootId | SessionId | RequestId | Sequence | UptimeMs | Payload | RunEpoch
    | PayloadBytes | PatternSeed | StatusPeriodUs | HealthPeriodUs | LeaseMs
    | Encoding | CrcEnabled | MaxPayloadBytes | MaxDatagramBytes | MinStatusPeriodUs | MinHealthPeriodUs
    | MaxPeriodUs | MinLeaseMs | MaxLeaseMs | Available
    | Code | LeaseRemainingMs
    | TemperatureCelsius | Validity | Synthetic
    | State | ReceivedRequests | RejectedDatagrams | SendErrors | SkippedPublications

  const COMMON: seq<Column> :=
    [ProtocolVersion, Kind, DeviceId, BootId, SessionId, RequestId, Sequence, UptimeMs, Payload, RunEpoch]

  function Columns(kind: i32): Option<seq<Column>> {
    if kind in {1, 3, 4, 5, 15} then Some([])
    else if kind == 2 then Some([PayloadBytes, PatternSeed, StatusPeriodUs, HealthPeriodUs, LeaseMs])
    else if kind == 11 then
      Some([Encoding, CrcEnabled, MaxPayloadBytes, MaxDatagramBytes, MinStatusPeriodUs, MinHealthPeriodUs,
            MaxPeriodUs, MinLeaseMs, MaxLeaseMs, Available])
    else if kind == 12 then Some([Code, LeaseRemainingMs])
    else if kind == 21 then Some([TemperatureCelsius, Validity, Synthetic])
    else if kind == 22 then Some([State, ReceivedRequests, RejectedDatagrams, SendErrors, SkippedPublications])
    else None
  }

  function Number(v: Option<int>): Text {
    if v.Some? then Print(v.value) else []
  }

  function Flag(v: Option<bool>): Text {
    if v.None? then [] else if v.value then ['t' as int, 'r' as int, 'u' as int, 'e' as int]
    else ['f' as int, 'a' as int, 'l' as int, 's' as int, 'e' as int]
  }

  function Characters(v: Option<Text>): Text {
    if v.Some? then v.value else []
  }

  /** The cell of a column: the text of the field that the column is named after, or nothing. */
  function Cell(f: FloatText, m: Envelope, column: Column): Text {
    match column
    case ProtocolVersion => Number(m.protocolVersion)
    case Kind => Number(m.kind)
    case DeviceId => Characters(m.deviceId)
    case BootId => Characters(m.bootId)
    case SessionId => Characters(m.sessionId)
    case RequestId => Number(m.requestId)
    case Sequence => Number(m.sequence)
    case UptimeMs => Number(m.uptimeMs)
    case Payload => Characters(m.payload)
    case RunEpoch => Number(m.runEpoch)
    case PayloadBytes => if m.configure.Some? then Number(m.configure.value.payloadBytes) else []
    case PatternSeed => if m.configure.Some? then Number(m.configure.value.patternSeed) else []
    case StatusPeriodUs => if m.configure.Some? then Number(m.configure.value.statusPeriodUs) else []
    case HealthPeriodUs => if m.configure.Some? then Number(m.configure.value.healthPeriodUs) else []
    case LeaseMs => if m.configure.Some? then Number(m.configure.value.leaseMs) else []
    case Encoding => if m.limits.Some? then Number(m.limits.value.encoding) else []
    case CrcEnabled => if m.limits.Some? then Flag(m.limits.value.crcEnabled) else []
    case MaxPayloadBytes => if m.limits.Some? then Number(m.limits.value.maxPayloadBytes) else []
    case MaxDatagramBytes => if m.limits.Some? then Number(m.limits.value.maxDatagramBytes) else []
    case MinStatusPeriodUs => if m.limits.Some? then Number(m.limits.value.minStatusPeriodUs) else []
    case MinHealthPeriodUs => if m.limits.Some? then Number(m.limits.value.minHealthPeriodUs) else []
    case MaxPeriodUs => if m.limits.Some? then Number(m.limits.value.maxPeriodUs) else []
    case MinLeaseMs => if m.limits.Some? then Number(m.limits.value.minLeaseMs) else []
    case MaxLeaseMs => if m.limits.Some? then Number(m.limits.value.maxLeaseMs) else []
    case Available => if m.limits.Some? then Flag(m.limits.value.available) else []
    case Code => if m.result.Some? then Number(m.result.value.code) else []
    case LeaseRemainingMs => if m.result.Some? then Number(m.result.value.leaseRemainingMs) else []
    case TemperatureCelsius =>
      if m.status.Some? && m.status.value.temperature.Some? then f.show(m.status.value.temperature.value) else []
    case Validity => if m.status.Some? then Number(m.status.value.validity) else []
    case Synthetic => if m.status.Some? then Flag(m.status.value.synthetic) else []
    case State => if m.health.Some? then Number(m.health.value.state) else []
    case ReceivedRequests => if m.health.Some? then Number(m.health.value.receivedRequests) else []
    case RejectedDatagrams => if m.health.Some? then Number(m.health.value.rejectedDatagrams) else []
    case SendErrors => if m.health.Some? then Number(m.health.value.sendErrors) else []
    case SkippedPublications => if m.health.Some? then Number(m.health.value.skippedPublications) else []
  }

  predicate InColumns(f: FloatText, m: Envelope, cells: seq<Text>, columns: seq<Column>) {
    |cells| == |columns| && forall k :: 0 <= k < |columns| ==> cells[k] == Cell(f, m, columns[k])
  }

  lemma TenColumns(f: FloatText, m: Envelope, cells: seq<Text>, c: seq<Column>)
    requires |cells| == |c| == 10 && cells[0] == Cell(f, m, c[0]) && cells[1] == Cell(f, m, c[1])
    requires cells[2] == Cell(f, m, c[2]) && cells[3] == Cell(f, m, c[3]) && cells[4] == Cell(f, m, c[4])
    requires cells[5] == Cell(f, m, c[5]) && cells[6] == Cell(f, m, c[6]) && cells[7] == Cell(f, m, c[7])
    requires cells[8] == Cell(f, m, c[8]) && cells[9] == Cell(f, m, c[9])
    ensures InColumns(f, m, cells, c)
  {
    hide Cell;
  }

  lemma HeaderColumns(f: FloatText, m: Envelope)
    ensures InColumns(f, m, HeaderCells(m), COMMON)
  {
    hide Print, InColumns;
    TenColumns(f, m, HeaderCells(m), COMMON);
  }

  lemma ConfigurationColumns(f: FloatText, m: Envelope)
    requires m.configure.Some?
    ensures InColumns(f, m, ConfigurationCells(m.configure.value), Columns(2).value)
  {
    hide Print;
  }

  lemma LimitsColumns(f: FloatText, m: Envelope)
    requires m.limits.Some?
    ensures InColumns(f, m, LimitsCells(m.limits.value), Columns(11).value)
  {
    hide Print, InColumns;
    TenColumns(f, m, LimitsCells(m.limits.value), Columns(11).value);
  }

  lemma ResultColumns(f: FloatText, m: Envelope)
    requires m.result.Some?
    ensures InColumns(f, m, ResultCells(m.result.value), Columns(12).value)
  {
    hide Print;
  }

  lemma StatusColumns(f: FloatText, m: Envelope)
    requires m.status.Some?
    ensures InColumns(f, m, StatusCells(f, m.status.value), Columns(21).value)
  {
    hide Print;
  }

  lemma HealthColumns(f: FloatText, m: Envelope)
    requires m.health.Some?
    ensures InColumns(f, m, HealthCells(m.health.value), Columns(22).value)
  {
    hide Print;
  }

  /** A record has the common columns and then those of its kind, in the order of the profile. */
  lemma ColumnsFollowTheProfile(f: FloatText, m: Envelope)
    ensures InColumns(f, m, HeaderCells(m), COMMON)
    ensures BodyCells(f, m).Some? ==>
              m.kind.Some? && Columns(m.kind.value).Some? &&
              InColumns(f, m, BodyCells(f, m).value, Columns(m.kind.value).value)
  {
    HeaderColumns(f, m);
    if BodyCells(f, m).Some? {
      match m.kind
      case Some(2) => ConfigurationColumns(f, m);
      case Some(11) => LimitsColumns(f, m);
      case Some(12) => ResultColumns(f, m);
      case Some(21) => StatusColumns(f, m);
      case Some(22) => HealthColumns(f, m);
      case _ =>
    }
    hide Cell, HeaderCells, ConfigurationCells, LimitsCells, ResultCells, StatusCells, HealthCells;
  }

  // ---------------------------------------------------------------------
  // Reading accepts nothing but what writing would produce.

  lemma U32CellIsCanonical(text: Text)
    ensures CellU32(text).Ok? ==> WriteInt(CellU32(text).value) == text
  {
    hide Print, FromStr;
  }

  lemma I32CellIsCanonical(text: Text)
    ensures CellI32(text).Ok? ==> WriteInt(CellI32(text).value) == text
  {
    hide Print, FromStr;
  }

  lemma BoolCellIsCanonical(text: Text)
    ensures CellBool(text).Ok? ==> WriteBool(CellBool(text).value) == text
  {
  }

  lemma TextCellIsCanonical(text: Text, capacity: nat)
    ensures CellText(text, capacity).Ok? ==> WriteText(CellText(text, capacity).value) == text
  {
  }

  lemma HeaderIsCanonical(cells: seq<Text>)
    requires |cells| >= 10 && ReadHeader(cells).Ok?
    ensures var m := WithPayload(ReadHeader(cells).value);
            HeaderCells(m) == cells[..10] && m.configure.None? && m.limits.None? && m.result.None? &&
            m.status.None? && m.health.None?
  {
    hide CellU32, CellI32, CellText, WriteInt;
    U32CellIsCanonical(cells[0]);
    I32CellIsCanonical(cells[1]);
    TextCellIsCanonical(cells[2], 32);
    TextCellIsCanonical(cells[3], 16);
    TextCellIsCanonical(cells[4], 16);
    U32CellIsCanonical(cells[5]);
    U32CellIsCanonical(cells[6]);
    U32CellIsCanonical(cells[7]);
    TextCellIsCanonical(cells[8], 512);
    U32CellIsCanonical(cells[9]);
  }

  lemma ConfigurationIsCanonical(c: seq<Text>)
    requires |c| == 5 && ReadConfiguration(c).Ok?
    ensures ConfigurationCells(ReadConfiguration(c).value) == c
  {
    hide CellU32, WriteInt;
    U32CellIsCanonical(c[0]);
    U32CellIsCanonical(c[1]);
    U32CellIsCanonical(c[2]);
    U32CellIsCanonical(c[3]);
    U32CellIsCanonical(c[4]);
  }

  lemma LimitsAreCanonical(c: seq<Text>)
    requires |c| == 10 && ReadLimits(c).Ok?
    ensures LimitsCells(ReadLimits(c).value) == c
  {
    hide CellU32, CellI32, CellBool, WriteInt, WriteBool;
    I32CellIsCanonical(c[0]);
    BoolCellIsCanonical(c[1]);
    U32CellIsCanonical(c[2]);
    U32CellIsCanonical(c[3]);
    U32CellIsCanonical(c[4]);
    U32CellIsCanonical(c[5]);
    U32CellIsCanonical(c[6]);
    U32CellIsCanonical(c[7]);
    U32CellIsCanonical(c[8]);
    BoolCellIsCanonical(c[9]);
  }

  lemma ResultIsCanonical(c: seq<Text>)
    requires |c| == 2 && ReadResult(c).Ok?
    ensures ResultCells(ReadResult(c).value) == c
  {
    hide CellU32, CellI32, WriteInt;
    I32CellIsCanonical(c[0]);
    U32CellIsCanonical(c[1]);
  }

  lemma StatusIsCanonical(f: FloatText, c: seq<Text>)
    requires |c| == 3 && ReadStatus(f, c).Ok?
    ensures var s := ReadStatus(f, c).value;
            StatusCells(f, s)[1..] == c[1..] && s.temperature == if c[0] == [] then None else f.parse(c[0])
  {
    hide CellI32, CellBool, WriteInt, WriteBool;
    I32CellIsCanonical(c[1]);
    BoolCellIsCanonical(c[2]);
  }

  lemma HealthIsCanonical(c: seq<Text>)
    requires |c| == 5 && ReadHealth(c).Ok?
    ensures HealthCells(ReadHealth(c).value) == c
  {
    hide CellU32, CellI32, WriteInt;
    I32CellIsCanonical(c[0]);
    U32CellIsCanonical(c[1]);
    U32CellIsCanonical(c[2]);
    U32CellIsCanonical(c[3]);
    U32CellIsCanonical(c[4]);
  }

  /** The cells of the body: all of them are what writing would produce, a temperature aside. */
  lemma BodyIsCanonical(f: FloatText, m: Envelope, c: seq<Text>)
    requires m.configure.None? && m.limits.None? && m.result.None? && m.status.None? && m.health.None?
    requires ReadBody(f, m, c).Ok?
    ensures var read := ReadBody(f, m, c).value;
            HeaderCells(read) == HeaderCells(m) && BodyCells(f, read).Some? && |BodyCells(f, read).value| == |c| &&
            if read.status.Some? then
              |c| == 3 && BodyCells(f, read).value[1..] == c[1..] &&
              read.status.value.temperature == if c[0] == [] then None else f.parse(c[0])
            else BodyCells(f, read).value == c
  {
    hide ReadConfiguration, ReadLimits, ReadResult, ReadStatus, ReadHealth, WriteInt;
    hide ConfigurationCells, LimitsCells, ResultCells, HealthCells;
    match m.kind
    case Some(2) => if |c| == 5 { ConfigurationIsCanonical(c); }
    case Some(11) => if |c| == 10 { LimitsAreCanonical(c); }
    case Some(12) => if |c| == 2 { ResultIsCanonical(c); }
    case Some(21) => if |c| == 3 { StatusIsCanonical(f, c); }
    case Some(22) => if |c| == 5 { HealthIsCanonical(c); }
    case _ =>
  }

  /**
   * Whatever is read has exactly the columns of its kind, and every cell but a temperature is the one text that
   * writing the message would produce: no sign, leading zero, other spelling or surplus column is accepted.
   */
  lemma ReadingIsCanonical(f: FloatText, cells: seq<Text>)
    ensures CsvRead(f, cells).Ok? ==>
              var m := CsvRead(f, cells).value;
              BodyCells(f, m).Some? && |cells| == 10 + |BodyCells(f, m).value| && cells[..10] == HeaderCells(m) &&
              if m.status.Some? then
                |cells| == 13 && cells[11..] == BodyCells(f, m).value[1..] &&
                m.status.value.temperature == if cells[10] == [] then None else f.parse(cells[10])
              else cells == HeaderCells(m) + BodyCells(f, m).value
  {
    if CsvRead(f, cells).Ok? {
      hide HeaderCells, BodyCells, ReadBody, WithPayload, ReadHeader;
      HeaderIsCanonical(cells);
      BodyIsCanonical(f, WithPayload(ReadHeader(cells).value), cells[10..]);
      assert cells == cells[..10] + cells[10..];
    }
  }
}
