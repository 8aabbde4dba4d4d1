/** UTF-8 well-formedness (section 4 of RFC 3629). */
module Utf8 {
  import opened Machine

  predicate Tail(b: Byte) {
    0x80 <= b <= 0xBF
  }

  /** The length of the well-formed character at the front, or zero. */
  function CharacterLength(s: Text): (n: nat)
    ensures n <= |s|
  {
    if s == [] then 0
    else if s[0] <= 0x7F then 1
    else if 0xC2 <= s[0] <= 0xDF && |s| >= 2 && Tail(s[1]) then 2
    else if 0xE0 <= s[0] <= 0xEF && |s| >= 3 && Tail(s[1]) && Tail(s[2]) &&
            (s[0] == 0xE0 ==> s[1] >= 0xA0) && (s[0] == 0xED ==> s[1] <= 0x9F) then 3
    else if 0xF0 <= s[0] <= 0xF4 && |s| >= 4 && Tail(s[1]) && Tail(s[2]) && Tail(s[3]) &&
            (s[0] == 0xF0 ==> s[1] >= 0x90) && (s[0] == 0xF4 ==> s[1] <= 0x8F) then 4
    else 0
  }

  predicate Valid(s: Text)
    decreases |s|
  {
    s == [] || (CharacterLength(s) > 0 && Valid(s[CharacterLength(s)..]))
  }

  lemma {:induction false} AsciiIsValid(s: Text)
    requires forall i :: 0 <= i < |s| ==> s[i] <= 0x7F
    ensures Valid(s)
    decreases |s|
  {
    if s != [] {
      AsciiIsValid(s[1..]);
    }
  }

  // ---------------------------------------------------------------------
  // Well-formed text is what characters encode to.

  type Scalar = c: nat | c < 0xD800 || 0xE000 <= c <= 0x10_FFFF

  /** The bytes of a character: six bits to every byte but the first. */
  function Encoded(c: Scalar): (bytes: Text)
    ensures bytes != []
  {
    if c < 0x80 then [c]
    else if c < 0x800 then [0xC0 + c / 0x40, 0x80 + c % 0x40]
    else if c < 0x1_0000 then [0xE0 + c / 0x1000, 0x80 + c / 0x40 % 0x40, 0x80 + c % 0x40]
    else [0xF0 + c / 0x4_0000, 0x80 + c / 0x1000 % 0x40, 0x80 + c / 0x40 % 0x40, 0x80 + c % 0x40]
  }

  function EncodedAll(cs: seq<Scalar>): Text {
    if cs == [] then [] else Encoded(cs[0]) + EncodedAll(cs[1..])
  }

  lemma EncodedLength(c: Scalar, rest: Text)
    ensures CharacterLength(Encoded(c) + rest) == |Encoded(c)|
  {
    var (bytes, s) := (Encoded(c), Encoded(c) + rest);
    assert forall i :: 0 <= i < |bytes| ==> s[i] == bytes[i];
  }

  lemma Shift(high: nat, low: nat)
    requires low < 0x40
    ensures (high * 0x40 + low) / 0x40 == high && (high * 0x40 + low) % 0x40 == low
  {
  }

  lemma Quotients(c: nat)
    ensures c / 0x40 / 0x40 == c / 0x1000 && c / 0x40 / 0x40 / 0x40 == c / 0x4_0000
  {
  }

  lemma TwoBytes(b0: nat, t1: nat)
    requires 0xC2 <= b0 <= 0xDF && t1 < 0x40
    ensures var c := (b0 - 0xC0) * 0x40 + t1; 0x80 <= c < 0x800 && Encoded(c) == [b0, 0x80 + t1]
  {
    Shift(b0 - 0xC0, t1);
  }

  lemma ThreeBytes(b0: nat, t1: nat, t2: nat)
    requires 0xE0 <= b0 <= 0xEF && t1 < 0x40 && t2 < 0x40 && (b0 == 0xE0 ==> t1 >= 0x20) && (b0 == 0xED ==> t1 <= 0x1F)
    ensures var c := ((b0 - 0xE0) * 0x40 + t1) * 0x40 + t2;
            0x800 <= c < 0x1_0000 && !(0xD800 <= c < 0xE000) && Encoded(c) == [b0, 0x80 + t1, 0x80 + t2]
  {
    var c := ((b0 - 0xE0) * 0x40 + t1) * 0x40 + t2;
    Shift(b0 - 0xE0, t1);
    Shift((b0 - 0xE0) * 0x40 + t1, t2);
    Quotients(c);
  }

  lemma FourBytes(b0: nat, t1: nat, t2: nat, t3: nat)
    requires 0xF0 <= b0 <= 0xF4 && t1 < 0x40 && t2 < 0x40 && t3 < 0x40
    requires (b0 == 0xF0 ==> t1 >= 0x10) && (b0 == 0xF4 ==> t1 <= 0x0F)
    ensures var c := (((b0 - 0xF0) * 0x40 + t1) * 0x40 + t2) * 0x40 + t3;
            0x1_0000 <= c <= 0x10_FFFF && Encoded(c) == [b0, 0x80 + t1, 0x80 + t2, 0x80 + t3]
  {
    var c := (((b0 - 0xF0) * 0x40 + t1) * 0x40 + t2) * 0x40 + t3;
    Shift(b0 - 0xF0, t1);
    Shift((b0 - 0xF0) * 0x40 + t1, t2);
    Shift(((b0 - 0xF0) * 0x40 + t1) * 0x40 + t2, t3);
    Quotients(c);
  }

  /** The character at the front of well-formed text. */
  lemma FrontIsEncoded(s: Text) returns (c: Scalar)
    requires CharacterLength(s) > 0
    ensures s[..CharacterLength(s)] == Encoded(c)
  {
    hide Encoded;
    var n, b0: nat := CharacterLength(s), s[0];
    if n == 1 {
      c := b0;
      assert Encoded(c) == [b0] by { OneByte(b0); }
    } else {
      var t1: nat := s[1] as int - 0x80;
      if n == 2 {
        TwoBytes(b0, t1);
        c := (b0 - 0xC0) * 0x40 + t1;
      } else {
        var t2: nat := s[2] as int - 0x80;
        if n == 3 {
          ThreeBytes(b0, t1, t2);
          c := ((b0 - 0xE0) * 0x40 + t1) * 0x40 + t2;
        } else {
          var t3: nat := s[3] as int - 0x80;
          FourBytes(b0, t1, t2, t3);
          c := (((b0 - 0xF0) * 0x40 + t1) * 0x40 + t2) * 0x40 + t3;
        }
      }
    }
  }

  lemma OneByte(b0: nat)
    requires b0 < 0x80
    ensures Encoded(b0) == [b0]
  {
  }

  lemma {:induction false} EncodedIsValid(cs: seq<Scalar>)
    ensures Valid(EncodedAll(cs))
    decreases |cs|
  {
    if cs != [] {
      var rest := EncodedAll(cs[1..]);
      EncodedIsValid(cs[1..]);
      EncodedLength(cs[0], rest);
      assert (Encoded(cs[0]) + rest)[|Encoded(cs[0])|..] == rest;
      hide Encoded, CharacterLength;
    }
  }

  lemma ValidContinues(s: Text)
    requires Valid(s) && s != []
    ensures CharacterLength(s) > 0 && Valid(s[CharacterLength(s)..])
  {
  }

  lemma EncodedAllStarts(c: Scalar, rest: seq<Scalar>)
    ensures EncodedAll([c] + rest) == Encoded(c) + EncodedAll(rest)
  {
    assert ([c] + rest)[1..] == rest;
  }

  lemma {:induction false} ValidIsEncoded(s: Text) returns (cs: seq<Scalar>)
    requires Valid(s)
    ensures s == EncodedAll(cs)
    decreases |s|
  {
    if s == [] {
      cs := [];
    } else {
      hide Encoded, CharacterLength, Valid;
      ValidContinues(s);
      var c := FrontIsEncoded(s);
      var rest := ValidIsEncoded(s[CharacterLength(s)..]);
      cs := [c] + rest;
      EncodedAllStarts(c, rest);
    }
  }

  /** Text is well formed exactly if it is some sequence of characters, surrogates excluded, encoded one by one. */
  lemma WellFormedIsEncoded(s: Text)
    ensures Valid(s) <==> exists cs: seq<Scalar> :: s == EncodedAll(cs)
  {
    if Valid(s) {
      var cs := ValidIsEncoded(s);
    }
    if exists cs: seq<Scalar> :: s == EncodedAll(cs) {
      var cs: seq<Scalar> :| s == EncodedAll(cs);
      EncodedIsValid(cs);
    }
  }
}

/** Cell texts: canonical integers and booleans, bounded strings, and floats through a printing library. */
module Cells {
  import opened Machine
  import opened Messages

  function Digits(n: nat): (text: Text)
    ensures text != [] && forall i :: 0 <= i < |text| ==> IsDigit(text[i])
  {
    if n < 10 then ['0' as int + n] else Digits(n / 10) + ['0' as int + n % 10]
  }

  function Value(digits: Text): Option<nat>
    decreases |digits|
  {
    if digits == [] then Some(0)
    else
      var last := digits[|digits| - 1];
      match Value(digits[..|digits| - 1])
      case Some(high) => if IsDigit(last) then Some(10 * high + (last - '0' as int)) else None
      case None => None
  }

  /** The library conversion: an optional sign, at least one digit, and a value in range. */
  function FromStr(text: Text, signed: bool, low: int, high: int): (r: Option<int>)
    ensures r.Some? ==> low <= r.value <= high
  {
    if text == [] then None
    else
      var negative := signed && text[0] == '-' as int;
      var digits := if negative || text[0] == '+' as int then text[1..] else text;
      if digits == [] then None
      else match Value(digits)
        case None => None
        case Some(n) =>
          var v := if negative then 0 - n else n;
          if low <= v <= high then Some(v) else None
  }

  function Print(v: int): (text: Text)
    ensures text != []
  {
    if v < 0 then ['-' as int] + Digits(-v) else Digits(v)
  }

  /** Only the text that printing would produce is read. */
  function ReadInteger(text: Text, signed: bool, low: int, high: int): (r: Result<int, CodecError>)
    ensures r.Ok? ==> low <= r.value <= high
  {
    match FromStr(text, signed, low, high)
    case Some(v) => if Print(v) == text then Ok(v) else Err(Decode)
    case None => Err(Decode)
  }

  lemma {:induction false} ValueOfDigits(n: nat)
    ensures Value(Digits(n)) == Some(n)
  {
    if n >= 10 {
      ValueOfDigits(n / 10);
      assert Digits(n)[..|Digits(n)| - 1] == Digits(n / 10);
    }
  }

  lemma FromStrOfPrint(v: int, signed: bool, low: int, high: int)
    requires low <= v <= high && (signed || low == 0)
    ensures FromStr(Print(v), signed, low, high) == Some(v)
  {
    var text := Print(v);
    if v < 0 {
      ValueOfDigits(-v);
      assert text[1..] == Digits(-v);
    } else {
      ValueOfDigits(v);
      assert IsDigit(text[0]);
    }
  }

  /** Integer cells are canonical: each value has exactly one text. */
  lemma IntegerCellIsCanonical(text: Text, v: int, signed: bool, low: int, high: int)
    requires low <= v <= high && (signed || low == 0)
    ensures ReadInteger(text, signed, low, high) == Ok(v) <==> text == Print(v)
  {
    FromStrOfPrint(v, signed, low, high);
  }

  function PowerOfTen(k: nat): nat {
    if k == 0 then 1 else 10 * PowerOfTen(k - 1)
  }

  lemma {:induction false} DigitsAreShort(n: nat, k: nat)
    requires k > 0 && n < PowerOfTen(k)
    ensures |Digits(n)| <= k
    decreases k
  {
    if n >= 10 {
      DigitsAreShort(n / 10, k - 1);
    }
  }

  lemma PrintIsShort(v: int)
    requires -0x8000_0000 <= v <= U32_MAX
    ensures |Print(v)| <= 11 && (v >= 0 ==> |Print(v)| <= 10)
  {
    assert PowerOfTen(3) == 1000;
    assert PowerOfTen(6) == 1000000;
    assert PowerOfTen(9) == 1000000000;
    assert PowerOfTen(10) == 10000000000;
    DigitsAreShort(if v < 0 then -v else v, 10);
  }

  const TRUE: Text := ['t' as int, 'r' as int, 'u' as int, 'e' as int]
  const FALSE: Text := ['f' as int, 'a' as int, 'l' as int, 's' as int, 'e' as int]

  function PrintBool(b: bool): Text {
    if b then TRUE else FALSE
  }

  /** The float library: shortest text that reads back, for every bit pattern. */
  datatype FloatText = FloatText(show: u32 -> Text, parse: Text -> Option<u32>)

  /** A cell that needs no quoting and is plain ASCII. */
  predicate PlainText(text: Text) {
    forall i :: 0 <= i < |text| ==> 0x20 <= text[i] <= 0x7E && text[i] != '"' as int && text[i] != ',' as int
  }

  /** What the codec relies on for every temperature it can be asked to send. */
  ghost predicate Lawful(f: FloatText) {
    forall bits: u32 :: PlausibleTemperature(bits) ==>
      var text := f.show(bits);
      text != [] && |text| <= 16 && PlainText(text) && f.parse(text) == Some(bits)
  }

  /** A library that meets these demands: bit patterns written as decimal numbers. */
  function DecimalBits(): FloatText {
    FloatText(
      bits => Digits(bits),
      text => match Value(text) case Some(n) => if n <= U32_MAX then Some(n) else None case None => None)
  }

  lemma LawfulLibrariesExist()
    ensures Lawful(DecimalBits())
  {
    forall bits: u32 | PlausibleTemperature(bits)
      ensures var text := DecimalBits().show(bits);
              text != [] && |text| <= 16 && PlainText(text) && DecimalBits().parse(text) == Some(bits)
    {
      PrintIsShort(bits);
      ValueOfDigits(bits);
      assert Print(bits) == Digits(bits);
    }
  }

  // ---------------------------------------------------------------------
  // Optional cells: an absent value is an empty cell.

  function WriteInt(v: Option<int>): Text {
    match v case None => [] case Some(n) => Print(n)
  }

  function WriteBool(v: Option<bool>): Text {
    match v case None => [] case Some(b) => PrintBool(b)
  }

  function WriteText(v: Option<Text>): Text {
    match v case None => [] case Some(t) => t
  }

  function WriteFloat(f: FloatText, v: Option<u32>): Text {
    match v case None => [] case Some(bits) => f.show(bits)
  }

  function CellU32(text: Text): Result<Option<u32>, CodecError> {
    if text == [] then Ok(None)
    else
      var v :- ReadInteger(text, false, 0, U32_MAX);
      Ok(Some(v))
  }

  function CellI32(text: Text): Result<Option<i32>, CodecError> {
    if text == [] then Ok(None)
    else
      var v :- ReadInteger(text, true, -0x8000_0000, 0x7FFF_FFFF);
      Ok(Some(v))
  }

  function CellBool(text: Text): Result<Option<bool>, CodecError> {
    if text == [] then Ok(None)
    else if text == TRUE then Ok(Some(true))
    else if text == FALSE then Ok(Some(false))
    else Err(Decode)
  }

  function CellText(text: Text, capacity: nat): (r: Result<Option<Text>, CodecError>)
    ensures r.Ok? && r.value.Some? ==> |r.value.value| <= capacity
  {
    if text == [] then Ok(None) else if |text| <= capacity then Ok(Some(text)) else Err(Decode)
  }

  function CellFloat(f: FloatText, text: Text): Result<Option<u32>, CodecError> {
    if text == [] then Ok(None)
    else match f.parse(text)
      case Some(bits) => Ok(Some(bits))
      case None => Err(Decode)
  }

  lemma U32CellRoundTrip(v: Option<u32>)
    ensures CellU32(WriteInt(v)) == Ok(v)
  {
    if v.Some? {
      IntegerCellIsCanonical(Print(v.value), v.value, false, 0, U32_MAX);
    }
  }

  lemma I32CellRoundTrip(v: Option<i32>)
    ensures CellI32(WriteInt(v)) == Ok(v)
  {
    if v.Some? {
      IntegerCellIsCanonical(Print(v.value), v.value, true, -0x8000_0000, 0x7FFF_FFFF);
    }
  }

  lemma BoolCellRoundTrip(v: Option<bool>)
    ensures CellBool(WriteBool(v)) == Ok(v)
  {
  }

  lemma TextCellRoundTrip(v: Option<Text>, capacity: nat)
    requires v.Some? ==> v.value != [] && |v.value| <= capacity
    ensures CellText(WriteText(v), capacity) == Ok(v)
  {
  }

  lemma FloatCellRoundTrip(f: FloatText, v: Option<u32>)
    requires Lawful(f) && (v.Some? ==> PlausibleTemperature(v.value))
    ensures CellFloat(f, WriteFloat(f, v)) == Ok(v)
  {
  }

  lemma IntCellIsPlain(v: Option<int>)
    requires v.Some? ==> -0x8000_0000 <= v.value <= U32_MAX
    ensures PlainText(WriteInt(v)) && |WriteInt(v)| <= 11
    ensures v.Some? && v.value >= 0 ==> |WriteInt(v)| <= 10
  {
    if v.Some? {
      PrintIsShort(v.value);
    }
  }
}
