/**
 * The generated message coder. A table lists what the generated code of one message does: its scalar
 * fields in order, and the members of its oneof, each with the table of the message nested in it.
 */
module Protobuf {
  import opened Machine
  import opened Wire
  import Utf8

  type FieldNumber = n: int | 0 < n < 0x2000_0000 witness 1

  datatype Table = Table(fields: seq<Field>, members: seq<Member>)
  datatype Field = Field(number: FieldNumber, kind: Kind)
  datatype Member = Member(number: FieldNumber, table: Table)

  /** A decoded message: the scalar fields that are present, by number, and the member that is set. */
  datatype Message = Message(fields: map<nat, Value>, body: Option<Body>)
  datatype Body = Body(number: nat, message: Message)

  const EMPTY := Message(map[], None)
  const LENGTH_DELIMITED: nat := 2

  function KindOf(fields: seq<Field>, number: nat): Option<Kind>
    decreases |fields|
  {
    if fields == [] then None
    else if fields[0].number == number then Some(fields[0].kind)
    else KindOf(fields[1..], number)
  }

  function TableOf(members: seq<Member>, number: nat): (r: Option<Table>)
    ensures r.Some? ==> exists i :: 0 <= i < |members| && members[i].number == number && members[i].table == r.value
    decreases |members|
  {
    if members == [] then None
    else if members[0].number == number then Some(members[0].table)
    else TableOf(members[1..], number)
  }

  // ---------------------------------------------------------------------
  // Size limits, as the generated constants compute them.

  function Tag(number: nat, wireType: nat): nat {
    number * 8 + wireType
  }

  function SizeOfTag(number: FieldNumber): nat {
    SizeOfVarint32(number * 8)
  }

  function MaxFields(fields: seq<Field>): nat
    decreases |fields|
  {
    if fields == [] then 0
    else SizeOfTag(fields[0].number) + MaxSizeOfKind(fields[0].kind) + MaxFields(fields[1..])
  }

  function Largest(sizes: seq<nat>): (m: nat)
    ensures forall i :: 0 <= i < |sizes| ==> sizes[i] <= m
  {
    if sizes == [] then 0
    else
      var others := Largest(sizes[1..]);
      assert forall i :: 1 <= i < |sizes| ==> sizes[i] == sizes[1..][i - 1];
      if sizes[0] > others then sizes[0] else others
  }

  function MaxSize(table: Table): nat
    decreases table
  {
    MaxFields(table.fields) +
    Largest(seq(|table.members|, i requires 0 <= i < |table.members| =>
      SizeOfTag(table.members[i].number) + SizeOfRecord(MaxSize(table.members[i].table))))
  }

  /** Field numbers are distinct, here and in every nested message. */
  predicate WellFormed(table: Table)
    decreases table
  {
    MaxSize(table) < TWO_32 &&
    (forall i, j :: 0 <= i < j < |table.fields| ==> table.fields[i].number != table.fields[j].number) &&
    forall i :: 0 <= i < |table.members| ==>
      KindOf(table.fields, table.members[i].number).None? &&
      WellFormed(table.members[i].table)
  }

  /** A value of the message type. */
  predicate Valid(table: Table, m: Message)
    decreases m
  {
    (forall n :: n in m.fields ==>
       KindOf(table.fields, n).Some? && Wire.Fits(KindOf(table.fields, n).value, m.fields[n])) &&
    (m.body.Some? ==>
       TableOf(table.members, m.body.value.number).Some? &&
       Valid(TableOf(table.members, m.body.value.number).value, m.body.value.message))
  }

  // ---------------------------------------------------------------------
  // Encoding.

  function EncodeField(f: Field, m: Message): Text {
    if f.number in m.fields && Wire.Fits(f.kind, m.fields[f.number]) then
      Varint(Tag(f.number, WireType(f.kind))) + WriteValue(f.kind, m.fields[f.number])
    else []
  }

  function EncodeFields(fields: seq<Field>, m: Message): Text
    decreases |fields|
  {
    if fields == [] then [] else EncodeField(fields[0], m) + EncodeFields(fields[1..], m)
  }

  function Delimited(number: nat, record: Text): Text {
    Varint(Tag(number, LENGTH_DELIMITED)) + (Varint(|record|) + record)
  }

  function Encode(table: Table, m: Message): Text
    requires Valid(table, m)
    decreases m
  {
    EncodeFields(table.fields, m) +
    (match m.body
     case None => []
     case Some(b) => Delimited(b.number, Encode(TableOf(table.members, b.number).value, b.message)))
  }

  // ---------------------------------------------------------------------
  // Decoding.

  /** The nested message a member starts from: what it already holds, if it is the one that is set. */
  function Held(m: Message, number: nat): Message {
    if m.body.Some? && m.body.value.number == number then m.body.value.message else EMPTY
  }

  /** One field: a known number with the expected wire type is stored, anything else is passed over. */
  function Step(table: Table, m: Message, bytes: Text): (r: Option<Parsed<Message>>)
    ensures r.Some? ==> |r.value.rest| < |bytes|
    decreases |bytes|, 0
  {
    match ReadVarint32(bytes)
    case None => None
    case Some(tag) =>
      var number, wireType := tag.value / 8, tag.value % 8;
      var kind, nested := KindOf(table.fields, number), TableOf(table.members, number);
      if number == 0 then None
      else if kind.Some? && WireType(kind.value) == wireType then
        match ReadValue(kind.value, tag.rest)
        case None => None
        case Some(p) => Some(Parsed(m.(fields := m.fields[number := p.value]), p.rest))
      else if nested.Some? && wireType == LENGTH_DELIMITED then
        match ReadRecord(tag.rest)
        case None => None
        case Some(record) =>
          match Decode(nested.value, Held(m, number), record.value)
          case None => None
          case Some(inner) => Some(Parsed(m.(body := Some(Body(number, inner))), record.rest))
      else
        match Skip(wireType, tag.rest)
        case None => None
        case Some(rest) => Some(Parsed(m, rest))
  }

  function Decode(table: Table, m: Message, bytes: Text): Option<Message>
    decreases |bytes|, 1
  {
    if bytes == [] then Some(m)
    else match Step(table, m, bytes)
      case None => None
      case Some(p) => Decode(table, p.value, p.rest)
  }

  // ---------------------------------------------------------------------
  // Fields one after another.

  /** Whole fields followed by anything decode like the fields alone and then the rest. */
  lemma {:induction false} StepExtends(table: Table, m: Message, a: Text, b: Text)
    requires Step(table, m, a).Some?
    ensures Step(table, m, a + b) == Some(Parsed(Step(table, m, a).value.value, Step(table, m, a).value.rest + b))
  {
    hide KindOf, TableOf, Decode, ReadVarint32, ReadValue, ReadRecord, Skip;
    ReadVarint32Extends(a, b);
    var tag := ReadVarint32(a).value;
    var number, wireType := tag.value / 8, tag.value % 8;
    var kind, nested := KindOf(table.fields, number), TableOf(table.members, number);
    if kind.Some? && WireType(kind.value) == wireType {
      ReadValueExtends(kind.value, tag.rest, b);
    } else if nested.Some? && wireType == LENGTH_DELIMITED {
      ReadRecordExtends(tag.rest, b);
    } else {
      SkipExtends(wireType, tag.rest, b);
    }
  }

  lemma {:induction false} DecodeConcatenation(table: Table, m: Message, a: Text, b: Text)
    requires Decode(table, m, a).Some?
    ensures Decode(table, m, a + b) == Decode(table, Decode(table, m, a).value, b)
    decreases |a|
  {
    hide Step;
    if a == [] {
      assert a + b == b;
    } else {
      StepExtends(table, m, a, b);
      var p := Step(table, m, a).value;
      DecodeConcatenation(table, p.value, p.rest, b);
    }
  }

  // ---------------------------------------------------------------------
  // Decoding undoes encoding.

  lemma {:induction false} KindOfListed(fields: seq<Field>, i: nat)
    requires i < |fields| && forall j, k :: 0 <= j < k < |fields| ==> fields[j].number != fields[k].number
    ensures KindOf(fields, fields[i].number) == Some(fields[i].kind)
    decreases |fields|
  {
    if i > 0 {
      KindOfListed(fields[1..], i - 1);
    }
  }

  lemma {:induction false} TableOfListed(members: seq<Member>, i: nat)
    requires i < |members| && forall j, k :: 0 <= j < k < |members| ==> members[j].number != members[k].number
    ensures TableOf(members, members[i].number) == Some(members[i].table)
    decreases |members|
  {
    if i > 0 {
      TableOfListed(members[1..], i - 1);
    }
  }

  lemma TagRoundTrip(number: FieldNumber, wireType: nat, rest: Text)
    requires wireType < 8
    ensures ReadVarint32(Varint(Tag(number, wireType)) + rest) == Some(Parsed(Tag(number, wireType), rest))
    ensures Tag(number, wireType) / 8 == number && Tag(number, wireType) % 8 == wireType
  {
    hide Varint, ReadVarint32;
    Varint32RoundTrip(Tag(number, wireType), rest);
  }

  lemma StepOnField(table: Table, m: Message, f: Field, v: Value, rest: Text)
    requires KindOf(table.fields, f.number) == Some(f.kind) && Wire.Fits(f.kind, v)
    ensures Step(table, m, Varint(Tag(f.number, WireType(f.kind))) + WriteValue(f.kind, v) + rest)
         == Some(Parsed(m.(fields := m.fields[f.number := v]), rest))
  {
    hide KindOf, TableOf, ReadVarint32, ReadValue, WriteValue, Varint, Tag, Wire.Fits, Decode;
    var tag, value := Varint(Tag(f.number, WireType(f.kind))), WriteValue(f.kind, v);
    assert tag + value + rest == tag + (value + rest);
    TagRoundTrip(f.number, WireType(f.kind), value + rest);
    ValueRoundTrip(f.kind, v, rest);
  }

  lemma StepOnMember(table: Table, m: Message, number: FieldNumber, record: Text, rest: Text)
    requires KindOf(table.fields, number).None? && TableOf(table.members, number).Some? && |record| < TWO_32
    ensures Step(table, m, Delimited(number, record) + rest) ==
            match Decode(TableOf(table.members, number).value, Held(m, number), record)
            case None => None
            case Some(inner) => Some(Parsed(m.(body := Some(Body(number, inner))), rest))
  {
    hide KindOf, TableOf, ReadVarint32, ReadRecord, Varint, Tag, Decode;
    var tag, record' := Varint(Tag(number, LENGTH_DELIMITED)), Varint(|record|) + record;
    assert Delimited(number, record) + rest == tag + (record' + rest);
    TagRoundTrip(number, LENGTH_DELIMITED, record' + rest);
    RecordRoundTrip(record, rest);
  }

  /** The fields of a message laid over others. */
  function Merge(over: map<nat, Value>, fields: seq<Field>, m: Message): map<nat, Value>
    decreases |fields|
  {
    if fields == [] then over
    else if fields[0].number in m.fields then
      Merge(over[fields[0].number := m.fields[fields[0].number]], fields[1..], m)
    else Merge(over, fields[1..], m)
  }

  lemma {:induction false} MergeLookup(over: map<nat, Value>, fields: seq<Field>, m: Message, n: nat)
    ensures n in Merge(over, fields, m) <==> n in over || (n in m.fields && KindOf(fields, n).Some?)
    ensures n in Merge(over, fields, m) ==>
              Merge(over, fields, m)[n] == if n in m.fields && KindOf(fields, n).Some? then m.fields[n] else over[n]
    decreases |fields|
  {
    if fields != [] {
      if fields[0].number in m.fields {
        MergeLookup(over[fields[0].number := m.fields[fields[0].number]], fields[1..], m, n);
      } else {
        MergeLookup(over, fields[1..], m, n);
      }
    }
  }

  lemma MergeAll(table: Table, m: Message)
    requires Valid(table, m)
    ensures Merge(map[], table.fields, m) == m.fields
  {
    hide Merge, KindOf;
    var merged := Merge(map[], table.fields, m);
    forall n | n in merged || n in m.fields
      ensures n in merged && n in m.fields && merged[n] == m.fields[n]
    {
      MergeLookup(map[], table.fields, m, n);
    }
  }

  lemma {:induction false} FieldsRoundTrip(table: Table, fields: seq<Field>, m: Message, over: Message, rest: Text)
    requires forall i :: 0 <= i < |fields| ==> KindOf(table.fields, fields[i].number) == Some(fields[i].kind)
    requires Valid(table, m)
    ensures Decode(table, over, EncodeFields(fields, m) + rest)
         == Decode(table, over.(fields := Merge(over.fields, fields, m)), rest)
    decreases |fields|
  {
    hide KindOf, TableOf, Step, Wire.Fits, Varint, Tag, WriteValue;
    if fields == [] {
      assert EncodeFields(fields, m) + rest == rest;
    } else {
      var f := fields[0];
      var others := EncodeFields(fields[1..], m) + rest;
      assert EncodeFields(fields, m) + rest == EncodeField(f, m) + others;
      if f.number in m.fields {
        StepOnField(table, over, f, m.fields[f.number], others);
        FieldsRoundTrip(table, fields[1..], m, over.(fields := over.fields[f.number := m.fields[f.number]]), rest);
      } else {
        assert EncodeField(f, m) + others == others;
        FieldsRoundTrip(table, fields[1..], m, over, rest);
      }
    }
  }

  lemma MemberIsListed(table: Table, number: nat)
    requires WellFormed(table) && TableOf(table.members, number).Some?
    ensures 0 < number < 0x2000_0000 && KindOf(table.fields, number).None?
    ensures WellFormed(TableOf(table.members, number).value)
    ensures SizeOfTag(number) + SizeOfRecord(MaxSize(TableOf(table.members, number).value)) + MaxFields(table.fields)
         <= MaxSize(table)
  {
    hide KindOf;
    var i :| 0 <= i < |table.members| && table.members[i].number == number &&
             table.members[i].table == TableOf(table.members, number).value;
    var sizes := seq(|table.members|, i requires 0 <= i < |table.members| =>
      SizeOfTag(table.members[i].number) + SizeOfRecord(MaxSize(table.members[i].table)));
    assert sizes[i] <= Largest(sizes);
  }

  lemma TagSize(number: FieldNumber, wireType: nat)
    requires wireType < 8
    ensures |Varint(Tag(number, wireType))| == SizeOfTag(number)
  {
    SizeOfVarint32IsLength(Tag(number, wireType));
  }

  lemma FieldSize(f: Field, m: Message)
    requires f.number in m.fields ==> Wire.Fits(f.kind, m.fields[f.number])
    ensures |EncodeField(f, m)| ==
            if f.number in m.fields then SizeOfTag(f.number) + SizeOfValue(f.kind, m.fields[f.number]) else 0
    ensures |EncodeField(f, m)| <= SizeOfTag(f.number) + MaxSizeOfKind(f.kind)
  {
    hide Varint, Tag, WriteValue, SizeOfTag, SizeOfValue, Wire.Fits;
    TagSize(f.number, WireType(f.kind));
    if f.number in m.fields {
      ValueSize(f.kind, m.fields[f.number]);
    }
  }

  lemma {:induction false} FieldsSize(table: Table, fields: seq<Field>, m: Message)
    requires forall i :: 0 <= i < |fields| ==> KindOf(table.fields, fields[i].number) == Some(fields[i].kind)
    requires Valid(table, m)
    ensures |EncodeFields(fields, m)| <= MaxFields(fields)
    decreases |fields|
  {
    hide EncodeField, SizeOfTag, Wire.Fits;
    if fields != [] {
      FieldSize(fields[0], m);
      FieldsSize(table, fields[1..], m);
    }
  }

  lemma DelimitedSize(number: FieldNumber, record: Text)
    requires |record| < TWO_32
    ensures |Delimited(number, record)| == SizeOfTag(number) + SizeOfRecord(|record|)
  {
    hide Varint, Tag, SizeOfTag;
    TagSize(number, LENGTH_DELIMITED);
    SizeOfVarint32IsLength(|record|);
  }

  lemma FieldsAreListed(table: Table)
    requires WellFormed(table)
    ensures forall i :: 0 <= i < |table.fields| ==>
              KindOf(table.fields, table.fields[i].number) == Some(table.fields[i].kind)
  {
    forall i | 0 <= i < |table.fields|
      ensures KindOf(table.fields, table.fields[i].number) == Some(table.fields[i].kind)
    {
      KindOfListed(table.fields, i);
    }
  }

  /** At every nesting level, an encoding is no longer than the limit computed from the table. */
  lemma {:induction false} EncodingIsBounded(table: Table, m: Message)
    requires WellFormed(table) && Valid(table, m)
    ensures |Encode(table, m)| <= MaxSize(table) < TWO_32
    decreases m
  {
    FieldsAreListed(table);
    FieldsSize(table, table.fields, m);
    match m.body
    case None => LimitCoversFields(table);
    case Some(b) =>
      var nested := TableOf(table.members, b.number).value;
      MemberIsListed(table, b.number);
      EncodingIsBounded(nested, b.message);
      var record := Encode(nested, b.message);
      hide MaxSize, SizeOfTag, SizeOfRecord, Delimited, EncodeFields, MaxFields;
      DelimitedSize(b.number, record);
      SizeOfRecordGrows(|record|, MaxSize(nested));
  }

  lemma LimitCoversFields(table: Table)
    ensures MaxFields(table.fields) <= MaxSize(table)
  {
  }

  /** Decoding the encoding of any message gives it back, for every table. */
  lemma {:induction false} MessageRoundTrip(table: Table, m: Message)
    requires WellFormed(table) && Valid(table, m)
    ensures Decode(table, EMPTY, Encode(table, m)) == Some(m)
    decreases m
  {
    FieldsAreListed(table);
    MergeAll(table, m);
    var scalars := EMPTY.(fields := m.fields);
    match m.body
    case None =>
      FieldsRoundTrip(table, table.fields, m, EMPTY, []);
    case Some(b) =>
      var nested := TableOf(table.members, b.number).value;
      MemberIsListed(table, b.number);
      MessageRoundTrip(nested, b.message);
      EncodingIsBounded(nested, b.message);
      var record := Encode(nested, b.message);
      hide Step, Delimited, EncodeFields, Merge, KindOf;
      FieldsRoundTrip(table, table.fields, m, EMPTY, Delimited(b.number, record));
      StepOnMember(table, scalars, b.number, record, []);
      assert Delimited(b.number, record) + [] == Delimited(b.number, record);
      DelimitedIsNotEmpty(b.number, record);
  }

  lemma DelimitedIsNotEmpty(number: nat, record: Text)
    ensures Delimited(number, record) != []
  {
    hide Varint;
  }

  // ---------------------------------------------------------------------
  // Fields that are not understood.

  /** One whole field that the message does not have: an unknown number, or a known one with another wire type. */
  predicate Ignorable(table: Table, field: Text) {
    match ReadVarint32(field)
    case None => false
    case Some(tag) =>
      var number, wireType := tag.value / 8, tag.value % 8;
      number != 0 &&
      (KindOf(table.fields, number).Some? ==> WireType(KindOf(table.fields, number).value) != wireType) &&
      (TableOf(table.members, number).Some? ==> wireType != LENGTH_DELIMITED) &&
      Skip(wireType, tag.rest) == Some([])
  }

  /** The payloads that can follow a tag: a varint, eight bytes, a record, or four bytes. */
  ghost predicate Payload(wireType: nat, payload: Text) {
    match wireType
    case 0 => exists n: nat :: n < Base(MAX_VARINT) && payload == Varint(n)
    case 1 => |payload| == 8
    case 2 => exists record: Text :: |record| < TWO_32 && payload == Varint(|record|) + record
    case 5 => |payload| == 4
    case _ => false
  }

  lemma PayloadIsSkipped(wireType: nat, payload: Text)
    requires Payload(wireType, payload)
    ensures Skip(wireType, payload) == Some([])
  {
    hide Varint, ReadRecord, Groups, Base;
    match wireType
    case 0 =>
      var n: nat :| n < Base(MAX_VARINT) && payload == Varint(n);
      VarintRoundTrip(n, [], MAX_VARINT);
      assert Varint(n) + [] == Varint(n);
    case 1 =>
    case 2 =>
      var record: Text :| |record| < TWO_32 && payload == Varint(|record|) + record;
      RecordRoundTrip(record, []);
      assert payload + [] == payload;
    case 5 =>
  }

  /** A field with a number the message lacks, or the wrong wire type for it, can be passed over. */
  lemma UnknownFieldIsIgnorable(table: Table, number: FieldNumber, wireType: nat, payload: Text)
    requires wireType < 8 && Payload(wireType, payload)
    requires KindOf(table.fields, number).Some? ==> WireType(KindOf(table.fields, number).value) != wireType
    requires TableOf(table.members, number).Some? ==> wireType != LENGTH_DELIMITED
    ensures Ignorable(table, Varint(Tag(number, wireType)) + payload)
  {
    hide Varint, ReadVarint32, Tag, Skip, Payload, KindOf, TableOf;
    TagRoundTrip(number, wireType, payload);
    PayloadIsSkipped(wireType, payload);
  }

  /** Inserted at any field boundary, such a field changes nothing. */
  lemma IgnoredFieldChangesNothing(table: Table, m: Message, before: Text, field: Text, after: Text)
    requires Decode(table, m, before).Some? && Ignorable(table, field)
    ensures Decode(table, m, before + field + after) == Decode(table, m, before + after)
  {
    var reached := Decode(table, m, before).value;
    StepOnIgnorable(table, reached, field);
    hide Ignorable, Step;
    DecodeConcatenation(table, m, before, field + after);
    assert before + field + after == before + (field + after);
    DecodeConcatenation(table, m, before, after);
    assert Decode(table, reached, field) == Some(reached);
    DecodeConcatenation(table, reached, field, after);
  }

  lemma StepOnIgnorable(table: Table, m: Message, field: Text)
    requires Ignorable(table, field)
    ensures field != [] && Step(table, m, field) == Some(Parsed(m, []))
  {
    hide Decode, KindOf, TableOf, ReadRecord, ReadValue, Skip, Groups;
  }

  /** Nested records matter only through what they decode to, so the same holds inside a nested message. */
  lemma NestedRecordMeaning(table: Table, m: Message, number: FieldNumber, x: Text, y: Text, after: Text)
    requires KindOf(table.fields, number).None? && TableOf(table.members, number).Some?
    requires |x| < TWO_32 && |y| < TWO_32
    requires Decode(TableOf(table.members, number).value, Held(m, number), x)
          == Decode(TableOf(table.members, number).value, Held(m, number), y)
    ensures Decode(table, m, Delimited(number, x) + after) == Decode(table, m, Delimited(number, y) + after)
  {
    StepOnMember(table, m, number, x, after);
    StepOnMember(table, m, number, y, after);
    DelimitedIsNotEmpty(number, x);
    DelimitedIsNotEmpty(number, y);
    hide Step, Delimited, KindOf, TableOf;
  }

  // ---------------------------------------------------------------------
  // Fields that occur more than once.

  /** Records of one member merge: two of them mean what one record with the contents of both does. */
  lemma RepeatedMembersMerge(table: Table, m: Message, number: FieldNumber, x: Text, y: Text, after: Text)
    requires KindOf(table.fields, number).None? && TableOf(table.members, number).Some?
    requires |x + y| < TWO_32 && Decode(TableOf(table.members, number).value, Held(m, number), x).Some?
    ensures Decode(table, m, Delimited(number, x) + Delimited(number, y) + after)
         == Decode(table, m, Delimited(number, x + y) + after)
  {
    var nested := TableOf(table.members, number).value;
    var inner := Decode(nested, Held(m, number), x).value;
    var once := m.(body := Some(Body(number, inner)));
    StepOnMember(table, m, number, x, Delimited(number, y) + after);
    StepOnMember(table, once, number, y, after);
    StepOnMember(table, m, number, x + y, after);
    DelimitedIsNotEmpty(number, x);
    DelimitedIsNotEmpty(number, y);
    DelimitedIsNotEmpty(number, x + y);
    assert Held(once, number) == inner;
    hide Step, Delimited, KindOf, TableOf;
    DecodeConcatenation(nested, Held(m, number), x, y);
    assert Delimited(number, x) + Delimited(number, y) + after == Delimited(number, x) + (Delimited(number, y) + after);
  }

  /** A record of another member replaces the one that was set, and starts from nothing. */
  lemma AnotherMemberReplaces(table: Table, m: Message, number: FieldNumber, record: Text)
    requires KindOf(table.fields, number).None? && TableOf(table.members, number).Some? && |record| < TWO_32
    requires m.body.Some? ==> m.body.value.number != number
    ensures Decode(table, m, Delimited(number, record)) ==
            match Decode(TableOf(table.members, number).value, EMPTY, record)
            case None => None
            case Some(inner) => Some(m.(body := Some(Body(number, inner))))
  {
    StepOnMember(table, m, number, record, []);
    DelimitedIsNotEmpty(number, record);
    assert Delimited(number, record) + [] == Delimited(number, record);
    hide Step, Delimited, KindOf, TableOf;
  }

  /** Of several values of one field the last one counts. */
  lemma LastValueCounts(table: Table, m: Message, f: Field, v: Value, w: Value, after: Text)
    requires KindOf(table.fields, f.number) == Some(f.kind) && Wire.Fits(f.kind, v) && Wire.Fits(f.kind, w)
    ensures var tag := Varint(Tag(f.number, WireType(f.kind)));
            Decode(table, m, tag + WriteValue(f.kind, v) + (tag + WriteValue(f.kind, w) + after)) ==
            Decode(table, m, tag + WriteValue(f.kind, w) + after)
  {
    hide Step, Varint, WriteValue, KindOf, Wire.Fits, Tag;
    var tag := Varint(Tag(f.number, WireType(f.kind)));
    var last := tag + WriteValue(f.kind, w) + after;
    assert tag + WriteValue(f.kind, v) + last != [] && last != [];
    StepOnField(table, m, f, v, last);
    StepOnField(table, m.(fields := m.fields[f.number := v]), f, w, after);
    StepOnField(table, m, f, w, after);
    assert m.fields[f.number := v][f.number := w] == m.fields[f.number := w];
  }

  // ---------------------------------------------------------------------
  // What can be decoded at all.

  lemma {:induction false} CapacityIsBounded(fields: seq<Field>, number: nat)
    requires KindOf(fields, number).Some? && KindOf(fields, number).value.Chars?
    ensures KindOf(fields, number).value.capacity <= MaxFields(fields)
    decreases |fields|
  {
    hide SizeOfVarint32;
    if fields[0].number != number {
      CapacityIsBounded(fields[1..], number);
    }
  }

  /** A value that has been read fits its kind: in range, within capacity, and well-formed text. */
  lemma ReadValueFits(kind: Kind, bytes: Text)
    requires kind.Chars? ==> kind.capacity < TWO_32
    ensures ReadValue(kind, bytes).Some? ==> Wire.Fits(kind, ReadValue(kind, bytes).value.value)
  {
    hide Groups, Utf8.Valid;
  }

  lemma ScalarKeepsValid(table: Table, m: Message, number: nat, v: Value)
    requires Valid(table, m) && KindOf(table.fields, number).Some?
    requires Wire.Fits(KindOf(table.fields, number).value, v)
    ensures Valid(table, m.(fields := m.fields[number := v]))
  {
    hide KindOf, TableOf, Wire.Fits;
  }

  lemma MemberKeepsValid(table: Table, m: Message, number: nat, inner: Message)
    requires Valid(table, m) && TableOf(table.members, number).Some?
    requires Valid(TableOf(table.members, number).value, inner)
    ensures Valid(table, m.(body := Some(Body(number, inner))))
  {
    hide KindOf, TableOf, Wire.Fits;
  }

  lemma HeldIsValid(table: Table, m: Message, number: nat)
    requires Valid(table, m) && TableOf(table.members, number).Some?
    ensures Valid(TableOf(table.members, number).value, Held(m, number))
  {
    EmptyIsValid(TableOf(table.members, number).value);
    hide KindOf, TableOf, Wire.Fits;
  }

  /** Every value of a known field fits, whatever it is read from. */
  lemma FieldReadsFit(table: Table, number: nat, bytes: Text)
    requires WellFormed(table) && KindOf(table.fields, number).Some?
    ensures var kind := KindOf(table.fields, number).value;
            ReadValue(kind, bytes).Some? ==> Wire.Fits(kind, ReadValue(kind, bytes).value.value)
  {
    hide WellFormed, KindOf, ReadValue, Wire.Fits, MaxFields;
    var kind := KindOf(table.fields, number).value;
    if kind.Chars? {
      CapacityIsBounded(table.fields, number);
      LimitCoversFields(table);
      WellFormedIsSmall(table);
    }
    ReadValueFits(kind, bytes);
  }

  lemma {:induction false} StepIsValid(table: Table, m: Message, bytes: Text)
    requires WellFormed(table) && Valid(table, m) && Step(table, m, bytes).Some?
    ensures Valid(table, Step(table, m, bytes).value.value)
    decreases |bytes|, 0
  {
    hide WellFormed, Valid, KindOf, TableOf, ReadValue, ReadRecord, Skip, ReadVarint32, Wire.Fits, MaxFields, Held;
    var tag := ReadVarint32(bytes).value;
    var number, wireType := tag.value / 8, tag.value % 8;
    var kind, nested := KindOf(table.fields, number), TableOf(table.members, number);
    if kind.Some? && WireType(kind.value) == wireType {
      FieldReadsFit(table, number, tag.rest);
      ScalarKeepsValid(table, m, number, ReadValue(kind.value, tag.rest).value.value);
    } else if nested.Some? && wireType == LENGTH_DELIMITED {
      var record := ReadRecord(tag.rest).value;
      MemberIsListed(table, number);
      HeldIsValid(table, m, number);
      DecodedIsValid(nested.value, Held(m, number), record.value);
      MemberKeepsValid(table, m, number, Decode(nested.value, Held(m, number), record.value).value);
    }
  }

  lemma WellFormedIsSmall(table: Table)
    requires WellFormed(table)
    ensures MaxSize(table) < TWO_32
  {
  }

  lemma EmptyIsValid(table: Table)
    ensures Valid(table, EMPTY)
  {
  }

  /** Whatever decodes is a message of its table, at every level. */
  lemma {:induction false} DecodedIsValid(table: Table, m: Message, bytes: Text)
    requires WellFormed(table) && Valid(table, m) && Decode(table, m, bytes).Some?
    ensures Valid(table, Decode(table, m, bytes).value)
    decreases |bytes|, 1
  {
    hide WellFormed, Valid, Step;
    if bytes != [] {
      StepIsValid(table, m, bytes);
      var p := Step(table, m, bytes).value;
      DecodedIsValid(table, p.value, p.rest);
    }
  }

  /** Bytes that decode mean what the canonical encoding of the result means: decoding that gives it again. */
  lemma DecodedIsReencoded(table: Table, bytes: Text)
    requires WellFormed(table) && Decode(table, EMPTY, bytes).Some?
    ensures var m := Decode(table, EMPTY, bytes).value;
            Valid(table, m) && |Encode(table, m)| <= MaxSize(table) && Decode(table, EMPTY, Encode(table, m)) == Some(m)
  {
    EmptyIsValid(table);
    DecodedIsValid(table, EMPTY, bytes);
    var m := Decode(table, EMPTY, bytes).value;
    hide Decode, Valid, Encode, WellFormed, MaxSize;
    MessageRoundTrip(table, m);
    EncodingIsBounded(table, m);
  }

  /** Field number zero, groups and the two unused wire types are refused wherever they stand. */
  lemma ForeignFieldIsRefused(table: Table, m: Message, before: Text, number: nat, wireType: nat, after: Text)
    requires Decode(table, m, before).Some? && number < 0x2000_0000 && wireType < 8
    requires number == 0 || wireType in {3, 4, 6, 7}
    ensures Decode(table, m, before + Varint(Tag(number, wireType)) + after).None?
  {
    var bytes := Varint(Tag(number, wireType)) + after;
    var reached := Decode(table, m, before).value;
    hide Varint, ReadVarint32, KindOf, TableOf, ReadValue, ReadRecord;
    Varint32RoundTrip(Tag(number, wireType), after);
    assert Tag(number, wireType) / 8 == number && Tag(number, wireType) % 8 == wireType;
    assert Step(table, reached, bytes).None?;
    DecodeConcatenation(table, m, before, bytes);
    assert before + Varint(Tag(number, wireType)) + after == before + bytes;
  }

  lemma RecordIsRequired(table: Table, m: Message, bytes: Text, tag: u32, rest: Text)
    requires ReadVarint32(bytes) == Some(Parsed(tag, rest)) && tag % 8 == LENGTH_DELIMITED && ReadRecord(rest).None?
    ensures Step(table, m, bytes).None?
  {
    hide ReadVarint32, ReadRecord, KindOf, TableOf, Decode, Utf8.Valid;
  }

  /** A length-delimited field that is cut short is refused: nothing is read past the end or made up. */
  lemma TruncatedFieldIsRefused(table: Table, m: Message, before: Text, number: FieldNumber, record: Text, cut: nat)
    requires Decode(table, m, before).Some? && |record| < TWO_32 && cut < |record|
    ensures Decode(table, m, before + Varint(Tag(number, LENGTH_DELIMITED)) + Varint(|record|) + record[..cut]).None?
  {
    var rest := Varint(|record|) + record[..cut];
    var bytes := Varint(Tag(number, LENGTH_DELIMITED)) + rest;
    hide Varint, ReadVarint32, KindOf, TableOf, Tag, Step;
    TagRoundTrip(number, LENGTH_DELIMITED, rest);
    Varint32RoundTrip(|record|, record[..cut]);
    var reached := Decode(table, m, before).value;
    RecordIsRequired(table, reached, bytes, Tag(number, LENGTH_DELIMITED), rest);
    DecodeConcatenation(table, m, before, bytes);
    assert before + Varint(Tag(number, LENGTH_DELIMITED)) + Varint(|record|) + record[..cut] == before + bytes;
  }
}
