/** Datagram framing: an optional eight-digit checksum trailer after the encoded body. */
module Framing {
  import opened Machine
  import opened Messages
  import Crc32c

  const MAX_BODY: nat := 1016
  const TRAILER_BYTES: nat := 8

  function Extra(mode: CrcMode): nat {
    if mode == On then TRAILER_BYTES else 0
  }

  /** The uppercase digit of a four-bit value. */
  function HexDigit(n: bv32): (digit: Byte) {
    if n == 0 then '0' as int else if n == 1 then '1' as int else if n == 2 then '2' as int
    else if n == 3 then '3' as int else if n == 4 then '4' as int else if n == 5 then '5' as int
    else if n == 6 then '6' as int else if n == 7 then '7' as int else if n == 8 then '8' as int
    else if n == 9 then '9' as int else if n == 10 then 'A' as int else if n == 11 then 'B' as int
    else if n == 12 then 'C' as int else if n == 13 then 'D' as int else if n == 14 then 'E' as int
    else 'F' as int
  }

  function HexValue(digit: Byte): Option<bv32> {
    if digit == '0' as int then Some(0) else if digit == '1' as int then Some(1)
    else if digit == '2' as int then Some(2) else if digit == '3' as int then Some(3)
    else if digit == '4' as int then Some(4) else if digit == '5' as int then Some(5)
    else if digit == '6' as int then Some(6) else if digit == '7' as int then Some(7)
    else if digit == '8' as int then Some(8) else if digit == '9' as int then Some(9)
    else if digit == 'A' as int then Some(10) else if digit == 'B' as int then Some(11)
    else if digit == 'C' as int then Some(12) else if digit == 'D' as int then Some(13)
    else if digit == 'E' as int then Some(14) else if digit == 'F' as int then Some(15)
    else None
  }

  function Drop(value: bv32): bv32 {
    value >> 4
  }

  /** The part of a value printed by its first digits. */
  function High(value: bv32, digits: nat): bv32
    decreases TRAILER_BYTES - digits
  {
    if digits >= TRAILER_BYTES then value else Drop(High(value, digits + 1))
  }

  function LowDigit(value: bv32): bv32 {
    value & 15
  }

  /** The four bits printed at each place, most significant first. */
  function Nibble(value: bv32, place: nat): bv32 {
    LowDigit(High(value, place + 1))
  }

  function Push(high: bv32, n: bv32): bv32 {
    (high << 4) | n
  }

  /** The trailer of a checksum. */
  function Trailer(value: bv32): (trailer: seq<Byte>)
    ensures |trailer| == TRAILER_BYTES
  {
    [HexDigit(Nibble(value, 0)), HexDigit(Nibble(value, 1)), HexDigit(Nibble(value, 2)), HexDigit(Nibble(value, 3)),
     HexDigit(Nibble(value, 4)), HexDigit(Nibble(value, 5)), HexDigit(Nibble(value, 6)), HexDigit(Nibble(value, 7))]
  }

  /** The value of a run of digits after those already read. */
  function Parse(high: bv32, digits: seq<Byte>): Option<bv32>
    decreases |digits|
  {
    if digits == [] then Some(high)
    else match HexValue(digits[0])
      case None => None
      case Some(n) => Parse(Push(high, n), digits[1..])
  }

  function Sealed(mode: CrcMode, body: seq<Byte>): seq<Byte> {
    if mode == On then body + Trailer(Crc32c.Checksum(body)) else body
  }

  /** Size is judged first, then integrity. */
  function Open(mode: CrcMode, datagram: seq<Byte>): Result<seq<Byte>, CodecError> {
    if |datagram| > MAX_BODY + Extra(mode) then Err(Size)
    else if mode == Off then Ok(datagram)
    else if |datagram| < TRAILER_BYTES then Err(Crc)
    else
      var cut := |datagram| - TRAILER_BYTES;
      if Parse(0, datagram[cut..]) == Some(Crc32c.Checksum(datagram[..cut])) then Ok(datagram[..cut]) else Err(Crc)
  }

  // ---------------------------------------------------------------------
  // The two in-place procedures.

  /** Writes the trailer behind a body already in the buffer; nothing else in the buffer changes. */
  method Seal(mode: CrcMode, buffer: array<Byte>, bodyLen: nat) returns (r: Result<nat, CodecError>)
    modifies buffer
    ensures r.Ok? <==> bodyLen <= MAX_BODY && bodyLen + Extra(mode) <= buffer.Length
    ensures r.Ok? ==> r.value == bodyLen + Extra(mode)
    ensures r.Ok? ==> buffer[..r.value] == Sealed(mode, old(buffer[..bodyLen]))
    ensures r.Ok? ==> buffer[r.value..] == old(buffer[bodyLen + Extra(mode)..])
    ensures r.Err? ==> r.error == Size && buffer[..] == old(buffer[..])
  {
    hide Crc32c.Checksum, HexDigit, Nibble;
    if bodyLen > MAX_BODY || buffer.Length < bodyLen + Extra(mode) {
      return Err(Size);
    }
    if mode == On {
      ghost var body := buffer[..bodyLen];
      var value := Crc32c.Checksum(buffer[..bodyLen]);
      for index := 0 to TRAILER_BYTES
        invariant buffer[..bodyLen] == body
        invariant forall k :: 0 <= k < index ==> buffer[bodyLen + k] == HexDigit(Nibble(value, k))
        invariant buffer[bodyLen + TRAILER_BYTES..] == old(buffer[bodyLen + TRAILER_BYTES..])
      {
        buffer[bodyLen + index] := HexDigit(Nibble(value, index));
      }
      assert buffer[bodyLen..bodyLen + TRAILER_BYTES] == Trailer(value);
      assert buffer[..bodyLen + TRAILER_BYTES] == body + buffer[bodyLen..bodyLen + TRAILER_BYTES];
    }
    return Ok(bodyLen + Extra(mode));
  }

  method OpenDatagram(mode: CrcMode, datagram: seq<Byte>) returns (r: Result<seq<Byte>, CodecError>)
    ensures r == Open(mode, datagram)
  {
    hide Crc32c.Checksum, HexValue, Push;
    if |datagram| > MAX_BODY + Extra(mode) {
      return Err(Size);
    }
    if mode == Off {
      return Ok(datagram);
    }
    if |datagram| < TRAILER_BYTES {
      return Err(Crc);
    }
    var cut := |datagram| - TRAILER_BYTES;
    var body, trailer := datagram[..cut], datagram[cut..];
    var expected: bv32 := 0;
    for index := 0 to TRAILER_BYTES
      invariant Parse(expected, trailer[index..]) == Parse(0, trailer)
    {
      match HexValue(trailer[index]) {
        case None => return Err(Crc);
        case Some(n) =>
          assert trailer[index..][1..] == trailer[index + 1..];
          expected := Push(expected, n);
      }
    }
    if Crc32c.Checksum(body) != expected {
      return Err(Crc);
    }
    return Ok(body);
  }

  // ---------------------------------------------------------------------
  // Trailers and checksums determine each other.

  predicate OneDigit(n: bv32) {
    n <= 15
  }

  lemma DigitOfValue(n: bv32)
    requires OneDigit(n)
    ensures HexValue(HexDigit(n)) == Some(n)
  {
  }

  lemma ValueOfDigit(digit: Byte)
    requires HexValue(digit).Some?
    ensures OneDigit(HexValue(digit).value) && HexDigit(HexValue(digit).value) == digit
  {
  }

  lemma LowDigitIsOneDigit(value: bv32)
    ensures OneDigit(LowDigit(value))
  {
  }

  lemma ShiftsCompose(v: bv32)
    ensures Drop(v) == v >> 4 && Drop(v >> 4) == v >> 8 && Drop(v >> 8) == v >> 12 && Drop(v >> 12) == v >> 16
    ensures Drop(v >> 16) == v >> 20 && Drop(v >> 20) == v >> 24 && Drop(v >> 24) == v >> 28 && Drop(v >> 28) == 0
  {
  }

  lemma HighIsShifted(v: bv32)
    ensures High(v, 8) == v && High(v, 7) == v >> 4 && High(v, 6) == v >> 8 && High(v, 5) == v >> 12
    ensures High(v, 4) == v >> 16 && High(v, 3) == v >> 20 && High(v, 2) == v >> 24 && High(v, 1) == v >> 28
    ensures High(v, 0) == 0
  {
    hide Drop;
    ShiftsCompose(v);
    assert High(v, 8) == v;
    assert High(v, 7) == v >> 4;
    assert High(v, 6) == v >> 8;
    assert High(v, 5) == v >> 12;
    assert High(v, 4) == v >> 16;
    assert High(v, 3) == v >> 20;
    assert High(v, 2) == v >> 24;
    assert High(v, 1) == v >> 28;
  }

  lemma PushLowDigit(value: bv32)
    ensures Push(Drop(value), LowDigit(value)) == value
  {
  }

  lemma PushContinues(value: bv32, place: nat)
    requires place < TRAILER_BYTES
    ensures Push(High(value, place), Nibble(value, place)) == High(value, place + 1)
  {
    hide LowDigit, Push, Drop;
    PushLowDigit(High(value, place + 1));
  }

  /** Some more digits can be appended without losing any bit. */
  predicate Fits(high: bv32, digits: nat) {
    if digits == 0 then true else if digits == 1 then high <= 0x0FFF_FFFF else if digits == 2 then high <= 0x00FF_FFFF
    else if digits == 3 then high <= 0x000F_FFFF else if digits == 4 then high <= 0x0000_FFFF
    else if digits == 5 then high <= 0x0000_0FFF else if digits == 6 then high <= 0x0000_00FF
    else if digits == 7 then high <= 0x0000_000F else high == 0
  }

  lemma PushFits(high: bv32, n: bv32, digits: nat)
    requires 0 < digits <= TRAILER_BYTES && Fits(high, digits) && OneDigit(n)
    ensures Fits(Push(high, n), digits - 1)
  {
  }

  lemma PushIsInjective(high: bv32, n: bv32, other: bv32, m: bv32)
    requires Fits(high, 1) && Fits(other, 1) && OneDigit(n) && OneDigit(m)
    requires Push(high, n) == Push(other, m)
    ensures high == other && n == m
  {
  }

  lemma FitsMore(high: bv32, digits: nat)
    requires digits > 0 && Fits(high, digits)
    ensures Fits(high, 1)
  {
  }

  lemma {:induction false} ParsePrinted(value: bv32, place: nat)
    requires place <= TRAILER_BYTES
    ensures Parse(High(value, place), Trailer(value)[place..]) == Some(value)
    decreases TRAILER_BYTES - place
  {
    hide HexDigit, HexValue, LowDigit, High, Push, OneDigit;
    if place == TRAILER_BYTES {
      assert High(value, TRAILER_BYTES) == value by { HighIsShifted(value); }
    } else {
      var rest := Trailer(value)[place..];
      assert rest[0] == HexDigit(Nibble(value, place)) && rest[1..] == Trailer(value)[place + 1..];
      LowDigitIsOneDigit(High(value, place + 1));
      DigitOfValue(Nibble(value, place));
      PushContinues(value, place);
      ParsePrinted(value, place + 1);
    }
  }

  lemma {:induction false} ParseIsInjective(high: bv32, t: seq<Byte>, other: bv32, u: seq<Byte>)
    requires |t| == |u| <= TRAILER_BYTES && Fits(high, |t|) && Fits(other, |t|)
    requires Parse(high, t).Some? && Parse(high, t) == Parse(other, u)
    ensures high == other && t == u
    decreases |t|
  {
    hide HexDigit, HexValue, Push, Fits, OneDigit;
    if t != [] {
      var n, m := HexValue(t[0]).value, HexValue(u[0]).value;
      ValueOfDigit(t[0]);
      ValueOfDigit(u[0]);
      PushFits(high, n, |t|);
      PushFits(other, m, |t|);
      ParseIsInjective(Push(high, n), t[1..], Push(other, m), u[1..]);
      FitsMore(high, |t|);
      FitsMore(other, |t|);
      PushIsInjective(high, n, other, m);
      assert t == [t[0]] + t[1..] && u == [u[0]] + u[1..];
    }
  }

  /** Eight digits denote a value exactly when they are its canonical uppercase trailer. */
  lemma TrailerIsCanonical(digits: seq<Byte>, value: bv32)
    requires |digits| == TRAILER_BYTES
    ensures Parse(0, digits) == Some(value) <==> digits == Trailer(value)
  {
    hide Parse, Trailer;
    HighIsShifted(value);
    ParsePrinted(value, 0);
    assert Trailer(value)[0..] == Trailer(value);
    if Parse(0, digits) == Some(value) {
      ParseIsInjective(0, digits, 0, Trailer(value));
    }
  }

  lemma TrailersDiffer(v: bv32, w: bv32)
    requires v != w
    ensures Trailer(v) != Trailer(w)
  {
    hide Parse, Trailer;
    TrailerIsCanonical(Trailer(v), v);
    TrailerIsCanonical(Trailer(v), w);
  }

  // ---------------------------------------------------------------------
  // Main results.

  /** A datagram is accepted exactly when it is the sealed form of the body that is returned. */
  lemma OpenAcceptsExactlySealed(mode: CrcMode, datagram: seq<Byte>, body: seq<Byte>)
    ensures Open(mode, datagram) == Ok(body) <==> |body| <= MAX_BODY && datagram == Sealed(mode, body)
  {
    hide Parse, Trailer, Crc32c.Checksum;
    if mode == On && |datagram| >= TRAILER_BYTES {
      var cut := |datagram| - TRAILER_BYTES;
      TrailerIsCanonical(datagram[cut..], Crc32c.Checksum(datagram[..cut]));
      assert datagram == datagram[..cut] + datagram[cut..];
      if datagram == Sealed(mode, body) {
        assert datagram[..cut] == body;
        assert datagram[cut..] == Trailer(Crc32c.Checksum(body));
      }
    }
  }

  /** Any other eight bytes in place of the trailer are rejected. */
  lemma DamagedTrailerIsRejected(body: seq<Byte>, trailer: seq<Byte>)
    requires |body| <= MAX_BODY && |trailer| == TRAILER_BYTES && trailer != Trailer(Crc32c.Checksum(body))
    ensures Open(On, body + trailer) == Err(Crc)
  {
    hide Parse, Trailer, Crc32c.Checksum;
    var datagram := body + trailer;
    assert datagram[..|body|] == body && datagram[|body|..] == trailer;
    TrailerIsCanonical(trailer, Crc32c.Checksum(body));
  }

  /** Any change confined to four consecutive bytes of the body is rejected. */
  lemma DamagedBodyIsRejected(prefix: seq<Byte>, window: seq<Byte>, damaged: seq<Byte>, suffix: seq<Byte>)
    requires |prefix + window + suffix| <= MAX_BODY && |window| == |damaged| <= 4 && window != damaged
    ensures Open(On, prefix + damaged + suffix + Trailer(Crc32c.Checksum(prefix + window + suffix))) == Err(Crc)
  {
    hide Trailer, Crc32c.Checksum, Open;
    Crc32c.BurstChangesChecksum(prefix, window, damaged, suffix);
    var sent, received := Crc32c.Checksum(prefix + window + suffix), Crc32c.Checksum(prefix + damaged + suffix);
    TrailersDiffer(sent, received);
    DamagedTrailerIsRejected(prefix + damaged + suffix, Trailer(sent));
  }

  /** Which error is reported: size for what is longer than any frame, integrity otherwise, and only with a trailer. */
  lemma ErrorsAreExact(mode: CrcMode, datagram: seq<Byte>)
    ensures Open(mode, datagram) == Err(Size) <==> |datagram| > if mode == On then 1024 else 1016
    ensures Open(mode, datagram) == Err(Crc) ==> mode == On
    ensures Open(mode, datagram).Err? ==> Open(mode, datagram).error in {Size, Crc}
    ensures mode == On && |datagram| < 8 ==> Open(mode, datagram) == Err(Crc)
  {
    hide Crc32c.Checksum, Parse;
  }

  const CHECK_TEXT: seq<Byte> := [0x31, 0x32, 0x33, 0x34, 0x35, 0x36, 0x37, 0x38, 0x39]

  /** Digits are the sixteen of the published alphabet, capitals above nine, and nothing else is a digit. */
  lemma DigitsAreCapitals(n: bv32, digit: Byte)
    requires OneDigit(n)
    ensures HexDigit(n) as char == "0123456789ABCDEF"[n as int]
    ensures HexValue(digit).Some? <==> digit as char in "0123456789ABCDEF"
  {
    var alphabet := "0123456789ABCDEF";
    assert alphabet[0] == '0' && alphabet[1] == '1' && alphabet[2] == '2' && alphabet[3] == '3';
    assert alphabet[4] == '4' && alphabet[5] == '5' && alphabet[6] == '6' && alphabet[7] == '7';
    assert alphabet[8] == '8' && alphabet[9] == '9' && alphabet[10] == 'A' && alphabet[11] == 'B';
    assert alphabet[12] == 'C' && alphabet[13] == 'D' && alphabet[14] == 'E' && alphabet[15] == 'F';
  }

  lemma PublishedTrailer()
    ensures Trailer(0xE306_9283) == ['E' as int, '3' as int, '0' as int, '6' as int, '9' as int, '2' as int,
                                     '8' as int, '3' as int]
  {
    HighIsShifted(0xE306_9283);
    hide High;
  }

  /** The published frame: the check text and its checksum in capitals; with a small letter it is no frame. */
  lemma PublishedFrame(capitals: seq<Byte>, small: seq<Byte>)
    requires capitals ==
             ['E' as int, '3' as int, '0' as int, '6' as int, '9' as int, '2' as int, '8' as int, '3' as int]
    requires small == ['e' as int] + capitals[1..]
    ensures Open(On, CHECK_TEXT + capitals) == Ok(CHECK_TEXT) && Open(On, CHECK_TEXT + small) == Err(Crc)
  {
    hide Crc32c.Checksum, Trailer, Open;
    Crc32c.CheckValue();
    PublishedTrailer();
    OpenAcceptsExactlySealed(On, CHECK_TEXT + capitals, CHECK_TEXT);
    assert small[0] != capitals[0];
    DamagedTrailerIsRejected(CHECK_TEXT, small);
  }
}
