/** The strict single-record grammar: one automaton, and the field lists it accepts (compare section 2 of RFC 4180). */
module CsvRecord {
  import opened Machine
  import opened Messages

  const QUOTE: Byte := '"' as int
  const COMMA: Byte := ',' as int
  const CR: Byte := 13
  const LF: Byte := 10
  const CRLF: Text := [CR, LF]

  // ---------------------------------------------------------------------
  // The automaton.

  datatype State = Start | Unquoted | Quoted | Closing

  function Next(state: State, b: Byte): Option<State> {
    if b == CR || b == LF then None
    else match state
      case Start => Some(if b == QUOTE then Quoted else if b == COMMA then Start else Unquoted)
      case Unquoted => if b == COMMA then Some(Start) else if b == QUOTE then None else Some(Unquoted)
      case Quoted => Some(if b == QUOTE then Closing else Quoted)
      case Closing => if b == QUOTE then Some(Quoted) else if b == COMMA then Some(Start) else None
  }

  /** The state after some bytes, or nothing once a byte is refused. */
  function Run(state: State, bytes: Text): Option<State>
    decreases |bytes|
  {
    if bytes == [] then Some(state)
    else match Next(state, bytes[0])
      case None => None
      case Some(next) => Run(next, bytes[1..])
  }

  predicate EndsRecord(state: Option<State>) {
    state.Some? && state.value != Quoted
  }

  predicate Accepts(bytes: Text) {
    |bytes| >= 2 && bytes[|bytes| - 2..] == CRLF && EndsRecord(Run(Start, bytes[..|bytes| - 2]))
  }

  method CheckRecord(bytes: Text) returns (r: Result<(), CodecError>)
    ensures r == if Accepts(bytes) then Ok(()) else Err(Decode)
  {
    if |bytes| < 2 || bytes[|bytes| - 2..] != CRLF {
      return Err(Decode);
    }
    var body := bytes[..|bytes| - 2];
    var state := Start;
    for i := 0 to |body|
      invariant Run(state, body[i..]) == Run(Start, body)
    {
      assert body[i..][1..] == body[i + 1..];
      match Next(state, body[i]) {
        case None => return Err(Decode);
        case Some(next) => state := next;
      }
    }
    r := if state == Quoted then Err(Decode) else Ok(());
  }

  // ---------------------------------------------------------------------
  // The grammar.

  /** A field as it is written; the text is its value. */
  datatype Field = Bare(text: Text) | Enclosed(text: Text)

  predicate WellFormed(f: Field) {
    forall i :: 0 <= i < |f.text| ==>
      f.text[i] != CR && f.text[i] != LF && (f.Bare? ==> f.text[i] != COMMA && f.text[i] != QUOTE)
  }

  predicate AllWellFormed(fields: seq<Field>) {
    forall i :: 0 <= i < |fields| ==> WellFormed(fields[i])
  }

  function Doubled(text: Text): Text {
    if text == [] then [] else (if text[0] == QUOTE then [QUOTE, QUOTE] else [text[0]]) + Doubled(text[1..])
  }

  function RenderField(f: Field): Text {
    match f
    case Bare(text) => text
    case Enclosed(text) => [QUOTE] + Doubled(text) + [QUOTE]
  }

  function Joined(fields: seq<Field>): Text
    decreases |fields|
  {
    if fields == [] then [] else if |fields| == 1 then RenderField(fields[0])
    else RenderField(fields[0]) + [COMMA] + Joined(fields[1..])
  }

  /** A record: fields joined by commas, and a line end. */
  function Render(fields: seq<Field>): Text {
    Joined(fields) + CRLF
  }

  // ---------------------------------------------------------------------
  // Reading a record back: from each state, the fields still to come, the current one first.

  function Prepend(b: Byte, fields: Option<seq<Field>>): Option<seq<Field>> {
    match fields
    case Some(fs) =>
      if fs == [] then None
      else Some([match fs[0] case Bare(t) => Bare([b] + t) case Enclosed(t) => Enclosed([b] + t)] + fs[1..])
    case None => None
  }

  function Behind(f: Field, fields: Option<seq<Field>>): Option<seq<Field>> {
    match fields
    case Some(fs) => Some([f] + fs)
    case None => None
  }

  function Read(state: State, bytes: Text): Option<seq<Field>>
    decreases |bytes|
  {
    if bytes == [] then
      match state
      case Start | Unquoted => Some([Bare([])])
      case Quoted => None
      case Closing => Some([Enclosed([])])
    else
      var b, rest := bytes[0], bytes[1..];
      if b == CR || b == LF then None
      else match state
        case Start =>
          if b == QUOTE then Read(Quoted, rest)
          else if b == COMMA then Behind(Bare([]), Read(Start, rest))
          else Prepend(b, Read(Unquoted, rest))
        case Unquoted =>
          if b == COMMA then Behind(Bare([]), Read(Start, rest))
          else if b == QUOTE then None
          else Prepend(b, Read(Unquoted, rest))
        case Quoted =>
          if b == QUOTE then Read(Closing, rest) else Prepend(b, Read(Quoted, rest))
        case Closing =>
          if b == QUOTE then Prepend(QUOTE, Read(Quoted, rest))
          else if b == COMMA then Behind(Enclosed([]), Read(Start, rest))
          else None
  }

  /** The fields of a record. */
  function Fields(bytes: Text): Option<seq<Field>> {
    if |bytes| >= 2 && bytes[|bytes| - 2..] == CRLF then Read(Start, bytes[..|bytes| - 2]) else None
  }

  /** What is left to write of the current field, in each state. */
  function Rest(state: State, f: Field): Text {
    match state
    case Start => RenderField(f)
    case Unquoted => f.text
    case Quoted => Doubled(f.text) + [QUOTE]
    case Closing => if f.text == [] then [] else (Doubled(f.text) + [QUOTE])[1..]
  }

  function Others(fields: seq<Field>): Text
    requires fields != []
  {
    if |fields| == 1 then [] else [COMMA] + Joined(fields[1..])
  }

  function Remaining(state: State, fields: seq<Field>): Text
    requires fields != []
  {
    Rest(state, fields[0]) + Others(fields)
  }

  /** Which field can be under way in a state. */
  predicate Fits(state: State, f: Field) {
    match state
    case Start => true
    case Unquoted => f.Bare?
    case Quoted => f.Enclosed?
    case Closing => f.Enclosed? && (f.text != [] ==> f.text[0] == QUOTE)
  }

  lemma JoinedIsRemaining(fields: seq<Field>)
    requires fields != []
    ensures Joined(fields) == Remaining(Start, fields)
  {
  }

  lemma {:induction false} ReadAccepts(state: State, bytes: Text)
    ensures Read(state, bytes).Some? <==> EndsRecord(Run(state, bytes))
    ensures Read(state, bytes).Some? ==> Read(state, bytes).value != []
    decreases |bytes|
  {
    if bytes != [] && Next(state, bytes[0]).Some? {
      ReadAccepts(Next(state, bytes[0]).value, bytes[1..]);
    }
  }

  /** The same list with some text taken from its first field. */
  function Shortened(fields: seq<Field>): seq<Field>
    requires fields != [] && fields[0].text != []
  {
    [fields[0].(text := fields[0].text[1..])] + fields[1..]
  }

  function Lengthened(b: Byte, fields: seq<Field>): seq<Field>
    requires fields != []
  {
    [fields[0].(text := [b] + fields[0].text)] + fields[1..]
  }

  lemma PrependLengthens(b: Byte, fields: seq<Field>)
    requires fields != []
    ensures Prepend(b, Some(fields)) == Some(Lengthened(b, fields))
  {
  }

  lemma LengthenedShortens(fields: seq<Field>)
    requires fields != [] && fields[0].text != []
    ensures Lengthened(fields[0].text[0], Shortened(fields)) == fields
    ensures AllWellFormed(fields) ==> AllWellFormed(Shortened(fields))
  {
    assert [fields[0].text[0]] + fields[0].text[1..] == fields[0].text;
  }

  lemma LengthenedKeepsGrammar(b: Byte, fields: seq<Field>)
    requires fields != [] && AllWellFormed(fields) && b != CR && b != LF
    requires fields[0].Bare? ==> b != COMMA && b != QUOTE
    ensures AllWellFormed(Lengthened(b, fields))
  {
  }

  lemma RestOfLengthened(b: Byte, f: Field)
    ensures var longer := f.(text := [b] + f.text);
            (f.Bare? ==> Rest(Unquoted, longer) == [b] + Rest(Unquoted, f)) &&
            (f.Bare? ==> Rest(Start, longer) == [b] + Rest(Unquoted, f)) &&
            (b != QUOTE ==> Rest(Quoted, longer) == [b] + Rest(Quoted, f)) &&
            (b == QUOTE ==> Rest(Closing, longer) == [b] + Rest(Quoted, f)) &&
            (b == QUOTE ==> Rest(Quoted, longer) == [b] + Rest(Closing, longer))
  {
    var t := f.text;
    assert ([b] + t)[1..] == t;
    assert Doubled([b] + t) == (if b == QUOTE then [QUOTE, QUOTE] else [b]) + Doubled(t);
    if b == QUOTE {
      assert (Doubled([b] + t) + [QUOTE])[1..] == [QUOTE] + Doubled(t) + [QUOTE];
    }
  }

  /** One more byte in front of what is left to write, in each state. */
  lemma RemainingOfLengthened(b: Byte, fields: seq<Field>)
    requires fields != []
    ensures var longer := Lengthened(b, fields);
            (fields[0].Bare? ==> Remaining(Unquoted, longer) == [b] + Remaining(Unquoted, fields)) &&
            (fields[0].Bare? ==> Remaining(Start, longer) == [b] + Remaining(Unquoted, fields)) &&
            (b != QUOTE ==> Remaining(Quoted, longer) == [b] + Remaining(Quoted, fields)) &&
            (b == QUOTE ==> Remaining(Closing, longer) == [b] + Remaining(Quoted, fields)) &&
            (b == QUOTE ==> Remaining(Quoted, longer) == [b] + Remaining(Closing, longer))
  {
    hide Rest, Others;
    RestOfLengthened(b, fields[0]);
    SameOthers(Lengthened(b, fields), fields);
  }

  lemma SameOthers(fields: seq<Field>, others: seq<Field>)
    requires fields != [] && others != [] && fields[1..] == others[1..]
    ensures Others(fields) == Others(others)
  {
    assert |fields| == 1 + |fields[1..]| == |others|;
  }

  /** Where a field ends. */
  lemma RemainingOfEnded(fields: seq<Field>)
    requires fields != [] && fields[0].text == []
    ensures var tail := if |fields| == 1 then [] else [COMMA] + Remaining(Start, fields[1..]);
            Remaining(Unquoted, fields) == tail && Remaining(Closing, fields) == tail &&
            Remaining(Quoted, fields) == [QUOTE] + tail && (fields[0].Bare? ==> Remaining(Start, fields) == tail)
  {
    if |fields| > 1 {
      JoinedIsRemaining(fields[1..]);
    }
  }

  lemma RemainingOfOpened(fields: seq<Field>)
    requires fields != [] && fields[0].Enclosed?
    ensures Remaining(Start, fields) == [QUOTE] + Remaining(Quoted, fields)
  {
  }

  /** Whatever is read is well formed and writes back to the same bytes. */
  lemma {:induction false} ReadIsSound(state: State, bytes: Text)
    requires Read(state, bytes).Some?
    ensures var fields := Read(state, bytes).value;
            fields != [] && AllWellFormed(fields) && Fits(state, fields[0]) && Remaining(state, fields) == bytes
    decreases |bytes|
  {
    hide Remaining, Joined;
    var fields := Read(state, bytes).value;
    if bytes == [] {
      RemainingOfEnded(fields);
    } else {
      var b, rest := bytes[0], bytes[1..];
      assert bytes == [b] + rest;
      ReadIsSound(Next(state, b).value, rest);
      var others := Read(Next(state, b).value, rest).value;
      if state != Quoted && b == COMMA {
        assert fields[1..] == others;
        RemainingOfEnded(fields);
      } else if state == Start && b == QUOTE {
        RemainingOfOpened(fields);
      } else if state == Quoted && b == QUOTE {
        if fields[0].text == [] {
          RemainingOfEnded(fields);
        } else {
          LengthenedShortens(fields);
          RemainingOfLengthened(QUOTE, Shortened(fields));
        }
      } else {
        PrependLengthens(b, others);
        LengthenedKeepsGrammar(b, others);
        RemainingOfLengthened(b, others);
      }
    }
  }

  function Rank(state: State): nat {
    match state
    case Start => 2
    case Quoted => 1
    case _ => 0
  }

  /** Every well-formed list of fields is read back from what it is written as. */
  lemma {:induction false} ReadIsComplete(state: State, fields: seq<Field>)
    requires fields != [] && AllWellFormed(fields) && Fits(state, fields[0])
    ensures Read(state, Remaining(state, fields)) == Some(fields)
    decreases |fields|, |fields[0].text|, Rank(state)
  {
    hide Remaining, Joined;
    var f := fields[0];
    var bytes := Remaining(state, fields);
    if state == Start && f.Enclosed? {
      RemainingOfOpened(fields);
      assert bytes[1..] == Remaining(Quoted, fields);
      ReadIsComplete(Quoted, fields);
    } else if f.text == [] {
      RemainingOfEnded(fields);
      if state == Quoted {
        assert bytes[1..] == Remaining(Closing, fields);
        ReadIsComplete(Closing, fields);
      } else if |fields| > 1 {
        assert bytes[1..] == Remaining(Start, fields[1..]);
        ReadIsComplete(Start, fields[1..]);
        assert [f] + fields[1..] == fields;
      } else {
        assert fields == [f];
      }
    } else {
      var b := f.text[0];
      LengthenedShortens(fields);
      RemainingOfLengthened(b, Shortened(fields));
      PrependLengthens(b, Shortened(fields));
      if state == Quoted && b == QUOTE {
        assert bytes[1..] == Remaining(Closing, fields);
        ReadIsComplete(Closing, fields);
      } else {
        var next := if f.Bare? then Unquoted else Quoted;
        assert bytes[1..] == Remaining(next, Shortened(fields));
        ReadIsComplete(next, Shortened(fields));
      }
    }
  }

  // ---------------------------------------------------------------------
  // Main results.

  /** Reading and writing records are inverse to each other. */
  lemma FieldsInvertRender(bytes: Text, fields: seq<Field>)
    ensures Fields(bytes) == Some(fields) <==> fields != [] && AllWellFormed(fields) && bytes == Render(fields)
  {
    hide Remaining, Joined;
    if Fields(bytes) == Some(fields) {
      ReadIsSound(Start, bytes[..|bytes| - 2]);
      JoinedIsRemaining(fields);
      assert bytes == bytes[..|bytes| - 2] + bytes[|bytes| - 2..];
    }
    if fields != [] && AllWellFormed(fields) && bytes == Render(fields) {
      JoinedIsRemaining(fields);
      assert bytes[..|bytes| - 2] == Joined(fields) && bytes[|bytes| - 2..] == CRLF;
      ReadIsComplete(Start, fields);
    }
  }

  /** The automaton accepts exactly the written records. */
  lemma AcceptsExactlyRecords(bytes: Text)
    ensures Accepts(bytes) <==> exists fields :: fields != [] && AllWellFormed(fields) && bytes == Render(fields)
  {
    hide Joined, Read, Run;
    if |bytes| >= 2 && bytes[|bytes| - 2..] == CRLF {
      ReadAccepts(Start, bytes[..|bytes| - 2]);
    }
    if Accepts(bytes) {
      FieldsInvertRender(bytes, Fields(bytes).value);
    }
    forall fields | fields != [] && AllWellFormed(fields) && bytes == Render(fields)
      ensures Accepts(bytes)
    {
      FieldsInvertRender(bytes, fields);
    }
  }

  /** No record can be understood as two different lists of fields. */
  lemma RecordIsUnambiguous(fields: seq<Field>, others: seq<Field>)
    requires fields != [] && AllWellFormed(fields) && others != [] && AllWellFormed(others)
    requires Render(fields) == Render(others)
    ensures fields == others
  {
    hide Joined, Fields;
    FieldsInvertRender(Render(fields), fields);
    FieldsInvertRender(Render(fields), others);
  }
}
