/** Whole messaging datagrams in Protocol Buffers form: validation, normalization, the coder, and the trailer. */
module MessagingDatagram {
  import opened Machine
  import opened Messages
  import opened Messaging
  import opened MessagingProtobuf
  import Protobuf
  import ProtobufCoder
  import Framing

  /** A negative zero is sent and delivered as zero. */
  function Normalized(m: Envelope): Envelope {
    if m.status.Some? && m.status.value.temperature in {Some(0), Some(NEGATIVE_ZERO)} then
      m.(status := Some(m.status.value.(temperature := Some(0))))
    else m
  }

  lemma NormalizedIsValid(m: Envelope)
    requires Messaging.Validate(m, Format.Protobuf).Ok?
    ensures Messaging.Validate(Normalized(m), Format.Protobuf).Ok? && Normalized(Normalized(m)) == Normalized(m)
  {
    if Normalized(m) != m {
      assert Bodies(Normalized(m)) == Bodies(m);
      hide Count, Bodies, DeviceId, Nonce, InfoValid, HealthValid;
    }
  }

  /** The bytes of a valid message. */
  function Payload(m: Envelope): (bytes: Text)
    requires Messaging.Validate(m, Format.Protobuf).Ok?
    ensures |bytes| <= 153
  {
    NormalizedIsValid(m);
    ValidEnvelopeRoundTrip(Normalized(m));
    Protobuf.Encode(ENVELOPE_TABLE, ToPb(Normalized(m)))
  }

  function Encode(m: Envelope, room: nat): Result<Text, CodecError> {
    var _ :- Messaging.Validate(m, Format.Protobuf);
    if |Payload(m)| > room then Err(Size) else Ok(Payload(m))
  }

  function Decode(bytes: Text): Result<Envelope, CodecError> {
    if bytes == [] then Err(CodecError.Decode)
    else if |bytes| > Framing.MAX_BODY then Err(Size)
    else match Protobuf.Decode(ENVELOPE_TABLE, Protobuf.EMPTY, bytes)
      case None => Err(CodecError.Decode)
      case Some(message) =>
        var m := FromPb(message);
        var _ :- Messaging.Validate(m, Format.Protobuf);
        Ok(Normalized(m))
  }

  function EncodeFramed(crc: CrcMode, m: Envelope, room: nat): Result<Text, CodecError> {
    var body :- Encode(m, room);
    if |body| + Framing.Extra(crc) > room then Err(Size) else Ok(Framing.Sealed(crc, body))
  }

  function DecodeFramed(crc: CrcMode, datagram: Text): Result<Envelope, CodecError> {
    var body :- Framing.Open(crc, datagram);
    Decode(body)
  }

  lemma PayloadIs(m: Envelope)
    requires Messaging.Validate(m, Format.Protobuf).Ok?
    ensures Protobuf.WellFormed(ENVELOPE_TABLE) && Protobuf.Valid(ENVELOPE_TABLE, ToPb(Normalized(m)))
    ensures Payload(m) == Protobuf.Encode(ENVELOPE_TABLE, ToPb(Normalized(m)))
  {
    NormalizedIsValid(m);
    hide Messaging.Validate, Protobuf.Encode, Protobuf.Valid, Protobuf.WellFormed, ToPb, Protobuf.MaxSize, Normalized;
    ValidEnvelopeRoundTrip(Normalized(m));
    EnvelopeTable();
  }

  /** Encodes through a bounded vector and copies the result into the caller's buffer. */
  method EncodeInto(m: Envelope, out: array<Byte>) returns (r: Result<nat, CodecError>)
    modifies out
    ensures match Encode(m, out.Length)
            case Ok(bytes) => r == Ok(|bytes|) && |bytes| <= out.Length && out[..|bytes|] == bytes
            case Err(e) => r == Err(e)
    ensures r.Ok? ==> r.value <= out.Length && out[r.value..] == old(out[..])[r.value..]
    ensures r.Err? ==> out[..] == old(out[..])
  {
    hide Messaging.Validate, Protobuf.Encode, Protobuf.Valid, Protobuf.WellFormed, ToPb, Normalized, Payload;
    var _ :- Messaging.Validate(m, Format.Protobuf);
    PayloadIs(m);
    var encoder := new ProtobufCoder.Encoder(Framing.MAX_BODY);
    var ok := encoder.Encoded(ENVELOPE_TABLE, ToPb(Normalized(m)));
    var bytes := encoder.bytes;
    if !ok || |bytes| > out.Length {
      return Err(Size);
    }
    forall i | 0 <= i < |bytes| {
      out[i] := bytes[i];
    }
    assert out[..|bytes|] == bytes;
    return Ok(|bytes|);
  }

  lemma PayloadDecodes(m: Envelope)
    requires Messaging.Validate(m, Format.Protobuf).Ok?
    ensures Payload(m) != [] && Decode(Payload(m)) == Ok(Normalized(m))
  {
    NormalizedIsValid(m);
    PayloadIs(m);
    HasVersion(Normalized(m));
    hide Messaging.Validate, Protobuf.Encode, Protobuf.Decode, ToPb;
    hide FromPb, Payload, Normalized, Protobuf.Valid, Protobuf.WellFormed;
    ValidEnvelopeRoundTrip(Normalized(m));
    VersionIsCarried(Normalized(m));
    if Payload(m) == [] {
      NothingDecodesToEmpty();
    }
  }

  lemma HasVersion(m: Envelope)
    requires Messaging.Validate(m, Format.Protobuf).Ok?
    ensures m.protocolVersion.Some?
  {
  }

  lemma NothingDecodesToEmpty()
    ensures Protobuf.Decode(ENVELOPE_TABLE, Protobuf.EMPTY, []) == Some(Protobuf.EMPTY)
  {
  }

  /** A message with a version is not the empty message. */
  lemma VersionIsCarried(m: Envelope)
    requires m.protocolVersion.Some?
    requires FromPb(ToPb(m)) == m
    ensures ToPb(m) != Protobuf.EMPTY
  {
    hide ToPb;
  }

  /** What encoding a valid message comes to. */
  lemma EncodedIs(crc: CrcMode, m: Envelope, room: nat)
    requires Messaging.Validate(m, Format.Protobuf).Ok?
    ensures EncodeFramed(crc, m, room) ==
            if |Payload(m)| + Framing.Extra(crc) <= room then Ok(Framing.Sealed(crc, Payload(m))) else Err(Size)
  {
    hide Messaging.Validate, Payload, Framing.Sealed;
  }

  lemma DecodedIs(crc: CrcMode, datagram: Text, body: Text)
    requires Framing.Open(crc, datagram) == Ok(body)
    ensures DecodeFramed(crc, datagram) == Decode(body)
  {
    hide Framing.Open, Decode;
  }

  lemma InvalidIsRefused(crc: CrcMode, m: Envelope, room: nat)
    requires Messaging.Validate(m, Format.Protobuf).Err?
    ensures EncodeFramed(crc, m, room).Err?
  {
    hide Messaging.Validate;
  }

  /** Decoding undoes encoding up to the sign of zero, and only invalid messages or too little room prevent it. */
  lemma MessageSurvivesTheWire(crc: CrcMode, m: Envelope, room: nat)
    ensures EncodeFramed(crc, m, room).Ok? ==>
              DecodeFramed(crc, EncodeFramed(crc, m, room).value) == Ok(Normalized(m))
    ensures room >= 153 + Framing.Extra(crc) ==>
              (EncodeFramed(crc, m, room).Ok? <==> Messaging.Validate(m, Format.Protobuf).Ok?)
  {
    hide EncodeFramed, DecodeFramed, Messaging.Validate, Payload, Decode, Normalized, Framing.Sealed, Framing.Open;
    if Messaging.Validate(m, Format.Protobuf).Ok? {
      var body := Payload(m);
      var datagram := Framing.Sealed(crc, body);
      PayloadDecodes(m);
      EncodedIs(crc, m, room);
      Framing.OpenAcceptsExactlySealed(crc, datagram, body);
      DecodedIs(crc, datagram, body);
    } else {
      InvalidIsRefused(crc, m, room);
    }
  }

  /** Whatever decodes is a valid message, and its temperature, if any, is not a negative zero. */
  lemma DecodedIsValid(crc: CrcMode, datagram: Text)
    ensures DecodeFramed(crc, datagram).Ok? ==>
              var m := DecodeFramed(crc, datagram).value;
              Messaging.Validate(m, Format.Protobuf).Ok? &&
              (m.status.Some? ==> m.status.value.temperature != Some(0x8000_0000))
  {
    if DecodeFramed(crc, datagram).Ok? {
      var body := Framing.Open(crc, datagram).value;
      var m := FromPb(Protobuf.Decode(ENVELOPE_TABLE, Protobuf.EMPTY, body).value);
      assert DecodeFramed(crc, datagram) == Ok(Normalized(m));
      hide Messaging.Validate, Framing.Open, Protobuf.Decode, FromPb, DecodeFramed;
      NormalizedIsValid(m);
    }
  }

  /** Normalizing takes the sign from a negative zero and leaves everything else as it is. */
  lemma OnlyTheSignOfZeroIsLost(m: Envelope)
    ensures Normalized(m) == m || (m.status.Some? && m.status.value.temperature == Some(0x8000_0000))
    ensures m.status.Some? && m.status.value.temperature == Some(0x8000_0000) ==>
              Normalized(m) == m.(status := Some(m.status.value.(temperature := Some(0))))
  {
  }

  /** An empty body is a decoding error, and so is every body that is no sequence of whole fields. */
  lemma UndecodableIsRefused(crc: CrcMode, datagram: Text, body: Text)
    requires Framing.Open(crc, datagram) == Ok(body)
    ensures DecodeFramed(crc, datagram) == Err(CodecError.Decode) <==>
            body == [] || Protobuf.Decode(ENVELOPE_TABLE, Protobuf.EMPTY, body).None?
    ensures DecodeFramed(crc, datagram).Err? ==>
              DecodeFramed(crc, datagram).error in {CodecError.Decode, Version, Validation}
  {
    Framing.OpenAcceptsExactlySealed(crc, datagram, body);
    hide Framing.Open, Protobuf.Decode, FromPb, Framing.Sealed;
    hide DeviceId, Nonce, BodyValid, HeaderMatchesKind, BodyMatchesKind, Count;
  }

  /** A peer with a newer schema is understood: fields it adds at any boundary change nothing. */
  lemma NewerFieldsChangeNothing(before: Text, field: Text, after: Text)
    requires Protobuf.Decode(ENVELOPE_TABLE, Protobuf.EMPTY, before).Some? && Protobuf.Ignorable(ENVELOPE_TABLE, field)
    requires before + after != [] && |before + field + after| <= Framing.MAX_BODY
    ensures Decode(before + field + after) == Decode(before + after)
  {
    hide Messaging.Validate, Protobuf.Ignorable, Protobuf.Decode, FromPb;
    Protobuf.IgnoredFieldChangesNothing(ENVELOPE_TABLE, Protobuf.EMPTY, before, field, after);
  }
}
