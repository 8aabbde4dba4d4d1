/** The generated procedures themselves: a decoding loop, an encoder that fills a bounded buffer, and the size count. */
module ProtobufCoder {
  import opened Machine
  import opened Wire
  import opened Protobuf

  /** The decoding loop of one message, which starts from what the message already holds. */
  method DecodeMessage(table: Table, initial: Message, bytes: Text) returns (r: Option<Message>)
    ensures r == Decode(table, initial, bytes)
    decreases |bytes|
  {
    hide KindOf, TableOf, ReadVarint32, ReadValue, ReadRecord, Skip;
    var m, rest := initial, bytes;
    while rest != []
      invariant |rest| <= |bytes| && Decode(table, m, rest) == Decode(table, initial, bytes)
      decreases |rest|
    {
      var tag := ReadVarint32(rest);
      if tag.None? {
        return None;
      }
      var number, wireType := tag.value.value / 8, tag.value.value % 8;
      var kind, nested := KindOf(table.fields, number), TableOf(table.members, number);
      if number == 0 {
        return None;
      } else if kind.Some? && WireType(kind.value) == wireType {
        var p := ReadValue(kind.value, tag.value.rest);
        if p.None? {
          return None;
        }
        m, rest := m.(fields := m.fields[number := p.value.value]), p.value.rest;
      } else if nested.Some? && wireType == LENGTH_DELIMITED {
        var record := ReadRecord(tag.value.rest);
        if record.None? {
          return None;
        }
        var inner := DecodeMessage(nested.value, Held(m, number), record.value.value);
        if inner.None? {
          return None;
        }
        m, rest := m.(body := Some(Body(number, inner.value))), record.value.rest;
      } else {
        var skipped := Skip(wireType, tag.value.rest);
        if skipped.None? {
          return None;
        }
        rest := skipped.value;
      }
    }
    return Some(m);
  }

  /** Counts the encoded length without encoding. */
  method ComputeSize(table: Table, m: Message) returns (size: nat)
    requires WellFormed(table) && Valid(table, m)
    ensures size == |Encode(table, m)| <= MaxSize(table)
    decreases m
  {
    hide EncodeField, KindOf, TableOf, Delimited, SizeOfTag, SizeOfValue, SizeOfRecord, MaxSize, Wire.Fits;
    FieldsAreListed(table);
    EncodingIsBounded(table, m);
    size := 0;
    for i := 0 to |table.fields|
      invariant size + |EncodeFields(table.fields[i..], m)| == |EncodeFields(table.fields, m)|
    {
      var f := table.fields[i];
      assert table.fields[i..][0] == f && table.fields[i..][1..] == table.fields[i + 1..];
      FieldSize(f, m);
      if f.number in m.fields {
        size := size + (SizeOfTag(f.number) + SizeOfValue(f.kind, m.fields[f.number]));
      }
    }
    if m.body.Some? {
      var number, nested := m.body.value.number, TableOf(table.members, m.body.value.number).value;
      MemberIsListed(table, number);
      EncodingIsBounded(nested, m.body.value.message);
      DelimitedSize(number, Encode(nested, m.body.value.message));
      var length := ComputeSize(nested, m.body.value.message);
      size := size + (SizeOfTag(number) + SizeOfRecord(length));
    }
  }

  lemma AllFields(fields: seq<Field>)
    ensures fields[0..] == fields
  {
  }

  lemma NoFields(fields: seq<Field>, m: Message)
    ensures EncodeFields(fields[|fields|..], m) == []
  {
  }

  lemma FirstOfFields(fields: seq<Field>, i: nat, m: Message, before: Text)
    requires i < |fields|
    ensures before + EncodeFields(fields[i..], m)
         == before + EncodeField(fields[i], m) + EncodeFields(fields[i + 1..], m)
  {
    hide EncodeField;
    assert fields[i..][0] == fields[i] && fields[i..][1..] == fields[i + 1..];
  }

  lemma DelimitedParts(number: nat, record: Text, before: Text)
    ensures before + Delimited(number, record)
         == before + Varint(Tag(number, LENGTH_DELIMITED)) + Varint(|record|) + record
    ensures |Delimited(number, record)| == |Varint(Tag(number, LENGTH_DELIMITED))| + |Varint(|record|)| + |record|
  {
    hide Varint, Tag;
  }

  /** A byte vector of fixed capacity. */
  class Encoder {
    const capacity: nat
    var bytes: Text

    ghost predicate Valid()
      reads this
    {
      |bytes| <= capacity
    }

    constructor (capacity: nat)
      ensures Valid() && this.capacity == capacity && bytes == []
    {
      this.capacity := capacity;
      bytes := [];
    }

    method Append(data: Text) returns (ok: bool)
      requires Valid()
      modifies this
      ensures Valid() && (ok <==> |old(bytes)| + |data| <= capacity)
      ensures bytes == if ok then old(bytes) + data else old(bytes)
    {
      ok := |bytes| + |data| <= capacity;
      if ok {
        bytes := bytes + data;
      }
    }

    method Scalar(f: Field, m: Message) returns (ok: bool)
      requires Valid() && (f.number in m.fields ==> Wire.Fits(f.kind, m.fields[f.number]))
      modifies this
      ensures Valid() && (ok <==> |old(bytes)| + |EncodeField(f, m)| <= capacity)
      ensures ok ==> bytes == old(bytes) + EncodeField(f, m)
    {
      hide Varint, Tag, WriteValue, Wire.Fits;
      ok := true;
      if f.number in m.fields {
        ok := Append(Varint(Tag(f.number, WireType(f.kind))));
        if ok {
          ok := Append(WriteValue(f.kind, m.fields[f.number]));
        }
      }
    }

    method Scalars(table: Table, m: Message) returns (ok: bool)
      requires Valid() && WellFormed(table) && Protobuf.Valid(table, m)
      modifies this
      ensures Valid() && (ok <==> |old(bytes)| + |EncodeFields(table.fields, m)| <= capacity)
      ensures ok ==> bytes == old(bytes) + EncodeFields(table.fields, m)
    {
      FieldsAreListed(table);
      hide EncodeField, EncodeFields, KindOf, TableOf, WellFormed, Wire.Fits;
      ghost var goal := bytes + EncodeFields(table.fields, m);
      AllFields(table.fields);
      for i := 0 to |table.fields|
        invariant Valid() && bytes + EncodeFields(table.fields[i..], m) == goal
      {
        FirstOfFields(table.fields, i, m, bytes);
        ok := Scalar(table.fields[i], m);
        if !ok {
          assert |goal| > capacity;
          return;
        }
      }
      NoFields(table.fields, m);
      assert bytes == goal;
      ok := true;
    }

    /** A nested message, behind its tag and its computed length. */
    method Nested(table: Table, number: FieldNumber, m: Message) returns (ok: bool)
      requires Valid() && WellFormed(table) && Protobuf.Valid(table, m)
      modifies this
      ensures Valid() && (ok <==> |old(bytes)| + |Delimited(number, Encode(table, m))| <= capacity)
      ensures ok ==> bytes == old(bytes) + Delimited(number, Encode(table, m))
      decreases m, 1
    {
      hide WellFormed, Protobuf.Valid, Varint, Tag, Encode, Delimited;
      var tag := Varint(Tag(number, LENGTH_DELIMITED));
      var length := ComputeSize(table, m);
      DelimitedParts(number, Encode(table, m), bytes);
      ok := Append(tag);
      if ok {
        ok := Append(Varint(length));
        if ok {
          ok := Encoded(table, m);
        }
      }
    }

    /** Succeeds exactly when the whole encoding fits behind what is already there. */
    method Encoded(table: Table, m: Message) returns (ok: bool)
      requires Valid() && WellFormed(table) && Protobuf.Valid(table, m)
      modifies this
      ensures Valid() && (ok <==> |old(bytes)| + |Encode(table, m)| <= capacity)
      ensures ok ==> bytes == old(bytes) + Encode(table, m)
      decreases m, 0
    {
      hide EncodeFields, KindOf, TableOf, Delimited, MaxSize, Wire.Fits;
      ok := Scalars(table, m);
      if ok && m.body.Some? {
        var number := m.body.value.number;
        MemberIsListed(table, number);
        ok := Nested(TableOf(table.members, number).value, number, m.body.value.message);
      }
    }
  }
}
