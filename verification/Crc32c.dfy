/** CRC-32C, bit by bit (RFC 3720, section 12.1 and Appendix B.4), and why short bursts never go unnoticed. */
module Crc32c {
  import opened Machine

  /** Addition of polynomials over two elements. */
  function Add(a: bv32, b: bv32): bv32 {
    a ^ b
  }

  function Halve(r: bv32): bv32 {
    r >> 1
  }

  predicate Odd(r: bv32) {
    r & 1 == 1
  }

  /** One step of the register; the constant is the Castagnoli polynomial with its bits reflected. */
  function Shift(r: bv32): bv32 {
    if Odd(r) then Add(Halve(r), 0x82F6_3B78) else Halve(r)
  }

  function Shift8(r: bv32): bv32 {
    Shift(Shift(Shift(Shift(Shift(Shift(Shift(Shift(r))))))))
  }

  /** The eight bits of a byte, in the low end of a register. */
  function Bits(b: Byte): bv32 {
    (if b / 128 == 1 then 0x80 else 0) | (if b / 64 % 2 == 1 then 0x40 else 0) |
    (if b / 32 % 2 == 1 then 0x20 else 0) | (if b / 16 % 2 == 1 then 0x10 else 0) |
    (if b / 8 % 2 == 1 then 0x08 else 0) | (if b / 4 % 2 == 1 then 0x04 else 0) |
    (if b / 2 % 2 == 1 then 0x02 else 0) | (if b % 2 == 1 then 0x01 else 0)
  }

  function Update(r: bv32, body: seq<Byte>): bv32
    decreases |body|
  {
    if body == [] then r else Update(Shift8(Add(r, Bits(body[0]))), body[1..])
  }

  function Checksum(body: seq<Byte>): bv32 {
    Add(Update(0xFFFF_FFFF, body), 0xFFFF_FFFF)
  }

  // ---------------------------------------------------------------------
  // The register never forgets: every step is invertible.

  lemma AddIsInjective(x: bv32, y: bv32, b: bv32)
    requires x != y
    ensures Add(x, b) != Add(y, b) && Add(b, x) != Add(b, y)
  {
  }

  lemma ShiftIsInjective(x: bv32, y: bv32)
    requires Shift(x) == Shift(y)
    ensures x == y
  {
  }

  lemma Shift8IsInjective(x: bv32, y: bv32)
    requires Shift8(x) == Shift8(y)
    ensures x == y
  {
    hide Shift;
    var x1, y1 := Shift(x), Shift(y);
    var x2, y2 := Shift(x1), Shift(y1);
    var x3, y3 := Shift(x2), Shift(y2);
    var x4, y4 := Shift(x3), Shift(y3);
    var x5, y5 := Shift(x4), Shift(y4);
    var x6, y6 := Shift(x5), Shift(y5);
    var x7, y7 := Shift(x6), Shift(y6);
    ShiftIsInjective(x7, y7);
    ShiftIsInjective(x6, y6);
    ShiftIsInjective(x5, y5);
    ShiftIsInjective(x4, y4);
    ShiftIsInjective(x3, y3);
    ShiftIsInjective(x2, y2);
    ShiftIsInjective(x1, y1);
    ShiftIsInjective(x, y);
  }

  /** Registers that differ still differ after any common suffix. */
  lemma {:induction false} SuffixKeepsDifference(x: bv32, y: bv32, suffix: seq<Byte>)
    requires x != y
    ensures Update(x, suffix) != Update(y, suffix)
    decreases |suffix|
  {
    hide Shift8, Bits, Add;
    if suffix != [] {
      var b := Bits(suffix[0]);
      AddIsInjective(x, y, b);
      if Shift8(Add(x, b)) == Shift8(Add(y, b)) {
        Shift8IsInjective(Add(x, b), Add(y, b));
      }
      SuffixKeepsDifference(Shift8(Add(x, b)), Shift8(Add(y, b)), suffix[1..]);
    }
  }

  lemma {:induction false} UpdateJoin(r: bv32, a: seq<Byte>, b: seq<Byte>)
    ensures Update(r, a + b) == Update(Update(r, a), b)
    decreases |a|
  {
    hide Shift8, Bits, Add;
    if a == [] {
      assert a + b == b;
    } else {
      assert (a + b)[1..] == a[1..] + b;
      UpdateJoin(Shift8(Add(r, Bits(a[0]))), a[1..], b);
    }
  }

  // ---------------------------------------------------------------------
  // Bytes and their bits.

  lemma BitsAreAByte(b: Byte)
    ensures Bits(b) <= 0xFF
  {
  }

  lemma BitsKeepEachBit(b: Byte)
    ensures (Bits(b) & 0x80 != 0 <==> b / 128 == 1) && (Bits(b) & 0x40 != 0 <==> b / 64 % 2 == 1)
    ensures (Bits(b) & 0x20 != 0 <==> b / 32 % 2 == 1) && (Bits(b) & 0x10 != 0 <==> b / 16 % 2 == 1)
    ensures (Bits(b) & 0x08 != 0 <==> b / 8 % 2 == 1) && (Bits(b) & 0x04 != 0 <==> b / 4 % 2 == 1)
    ensures (Bits(b) & 0x02 != 0 <==> b / 2 % 2 == 1) && (Bits(b) & 0x01 != 0 <==> b % 2 == 1)
  {
  }

  lemma BitsAreInjective(b: Byte, c: Byte)
    requires Bits(b) == Bits(c)
    ensures b == c
  {
    hide Bits;
    BitsKeepEachBit(b);
    BitsKeepEachBit(c);
    SameBitsSameByte(b, c);
  }

  lemma SameHalves(b: nat, c: nat)
    requires b / 2 == c / 2 && b % 2 == c % 2
    ensures b == c
  {
  }

  lemma QuartersAreHalvesOfHalves(b: nat)
    ensures b / 4 == b / 2 / 2 && b / 8 == b / 4 / 2 && b / 16 == b / 8 / 2 && b / 32 == b / 16 / 2
    ensures b / 64 == b / 32 / 2 && b / 128 == b / 64 / 2
  {
  }

  lemma SameBitsSameByte(b: Byte, c: Byte)
    requires b / 128 == 1 <==> c / 128 == 1
    requires b / 64 % 2 == c / 64 % 2 && b / 32 % 2 == c / 32 % 2 && b / 16 % 2 == c / 16 % 2
    requires b / 8 % 2 == c / 8 % 2 && b / 4 % 2 == c / 4 % 2 && b / 2 % 2 == c / 2 % 2 && b % 2 == c % 2
    ensures b == c
  {
    QuartersAreHalvesOfHalves(b);
    QuartersAreHalvesOfHalves(c);
    SameHalves(b / 64, c / 64);
    SameHalves(b / 32, c / 32);
    SameHalves(b / 16, c / 16);
    SameHalves(b / 8, c / 8);
    SameHalves(b / 4, c / 4);
    SameHalves(b / 2, c / 2);
    SameHalves(b, c);
  }

  // ---------------------------------------------------------------------
  // A bit that enters later acts like one placed higher in the register from the start.

  function Up(x: bv32): bv32 {
    x << 1
  }

  function Up8(x: bv32): bv32 {
    Up(Up(Up(Up(Up(Up(Up(Up(x))))))))
  }

  lemma AddKeepsParity(r: bv32, x: bv32)
    ensures Odd(Add(r, Up(x))) == Odd(r)
  {
  }

  lemma HalvesAdd(r: bv32, y: bv32)
    ensures Halve(Add(r, y)) == Add(Halve(r), Halve(y))
  {
  }

  lemma HalveUndoesUp(x: bv32)
    requires x <= 0x7FFF_FFFF
    ensures Halve(Up(x)) == x
  {
  }

  lemma FeedbackCommutes(a: bv32, x: bv32)
    ensures Add(Add(a, x), 0x82F6_3B78) == Add(Add(a, 0x82F6_3B78), x)
  {
  }

  lemma ShiftCommutes(r: bv32, x: bv32)
    requires x <= 0x7FFF_FFFF
    ensures Shift(Add(r, Up(x))) == Add(Shift(r), x)
  {
    hide Add, Up, Halve, Odd;
    AddKeepsParity(r, x);
    HalvesAdd(r, Up(x));
    HalveUndoesUp(x);
    FeedbackCommutes(Halve(r), x);
  }

  lemma UpDoublesBound(x: bv32)
    ensures x <= 0x00FF_FFFF ==> Up(x) <= 0x01FF_FFFF
    ensures x <= 0x01FF_FFFF ==> Up(x) <= 0x03FF_FFFF
    ensures x <= 0x03FF_FFFF ==> Up(x) <= 0x07FF_FFFF
    ensures x <= 0x07FF_FFFF ==> Up(x) <= 0x0FFF_FFFF
    ensures x <= 0x0FFF_FFFF ==> Up(x) <= 0x1FFF_FFFF
    ensures x <= 0x1FFF_FFFF ==> Up(x) <= 0x3FFF_FFFF
    ensures x <= 0x3FFF_FFFF ==> Up(x) <= 0x7FFF_FFFF
  {
  }

  lemma Shift8Commutes(r: bv32, x: bv32)
    requires x <= 0x00FF_FFFF
    ensures Shift8(Add(r, Up8(x))) == Add(Shift8(r), x)
  {
    hide Shift, Add, Up;
    var x1 := Up(x);
    var x2 := Up(x1);
    var x3 := Up(x2);
    var x4 := Up(x3);
    var x5 := Up(x4);
    var x6 := Up(x5);
    var x7 := Up(x6);
    UpDoublesBound(x);
    UpDoublesBound(x1);
    UpDoublesBound(x2);
    UpDoublesBound(x3);
    UpDoublesBound(x4);
    UpDoublesBound(x5);
    UpDoublesBound(x6);
    ShiftCommutes(r, x7);
    ShiftCommutes(Shift(r), x6);
    ShiftCommutes(Shift(Shift(r)), x5);
    ShiftCommutes(Shift(Shift(Shift(r))), x4);
    ShiftCommutes(Shift(Shift(Shift(Shift(r)))), x3);
    ShiftCommutes(Shift(Shift(Shift(Shift(Shift(r))))), x2);
    ShiftCommutes(Shift(Shift(Shift(Shift(Shift(Shift(r)))))), x1);
    ShiftCommutes(Shift(Shift(Shift(Shift(Shift(Shift(Shift(r))))))), x);
  }

  // ---------------------------------------------------------------------
  // Up to four bytes enter the register as one word.

  function Pack(w: seq<Byte>): bv32
    decreases |w|
  {
    if w == [] then 0 else Add(Bits(w[0]), Up8(Pack(w[1..])))
  }

  function ShiftBytes(n: nat, r: bv32): bv32 {
    if n == 0 then r else ShiftBytes(n - 1, Shift8(r))
  }

  lemma PackedBound(a: bv32, x: bv32)
    requires a <= 0xFF
    ensures x <= 0xFFFF ==> Add(a, Up8(x)) <= 0xFF_FFFF
    ensures x <= 0xFF ==> Add(a, Up8(x)) <= 0xFFFF
    ensures x == 0 ==> Add(a, Up8(x)) <= 0xFF
  {
  }

  lemma PackedParts(a: bv32, x: bv32, b: bv32, y: bv32)
    requires a <= 0xFF && b <= 0xFF && x <= 0xFF_FFFF && y <= 0xFF_FFFF
    requires Add(a, Up8(x)) == Add(b, Up8(y))
    ensures a == b && x == y
  {
  }

  lemma AddAssociates(r: bv32, b: bv32, x: bv32)
    ensures Add(r, Add(b, x)) == Add(Add(r, b), x)
    ensures Add(r, 0) == r
  {
  }

  lemma {:induction false} PackIsBounded(w: seq<Byte>)
    requires |w| <= 3
    ensures Pack(w) <= 0xFF_FFFF
    ensures |w| <= 2 ==> Pack(w) <= 0xFFFF
    ensures |w| <= 1 ==> Pack(w) <= 0xFF
    ensures |w| == 0 ==> Pack(w) == 0
    decreases |w|
  {
    hide Bits, Add, Up8;
    if w != [] {
      BitsAreAByte(w[0]);
      PackIsBounded(w[1..]);
      PackedBound(Bits(w[0]), Pack(w[1..]));
    }
  }

  lemma {:induction false} PackIsInjective(w: seq<Byte>, v: seq<Byte>)
    requires |w| == |v| <= 4 && Pack(w) == Pack(v)
    ensures w == v
    decreases |w|
  {
    hide Bits, Add, Up8;
    if w != [] {
      PackIsBounded(w[1..]);
      PackIsBounded(v[1..]);
      BitsAreAByte(w[0]);
      BitsAreAByte(v[0]);
      PackedParts(Bits(w[0]), Pack(w[1..]), Bits(v[0]), Pack(v[1..]));
      BitsAreInjective(w[0], v[0]);
      PackIsInjective(w[1..], v[1..]);
      assert w == [w[0]] + w[1..] && v == [v[0]] + v[1..];
    }
  }

  lemma {:induction false} WindowIsAWord(r: bv32, w: seq<Byte>)
    requires |w| <= 4
    ensures Update(r, w) == ShiftBytes(|w|, Add(r, Pack(w)))
    decreases |w|
  {
    hide Bits, Shift8, Add, Up8;
    if w == [] {
      AddAssociates(r, 0, 0);
    } else {
      var b, high := Bits(w[0]), Pack(w[1..]);
      PackIsBounded(w[1..]);
      AddAssociates(r, b, Up8(high));
      Shift8Commutes(Add(r, b), high);
      WindowIsAWord(Shift8(Add(r, b)), w[1..]);
    }
  }

  lemma {:induction false} ShiftBytesIsInjective(n: nat, x: bv32, y: bv32)
    requires x != y
    ensures ShiftBytes(n, x) != ShiftBytes(n, y)
  {
    hide Shift8;
    if n > 0 {
      if Shift8(x) == Shift8(y) {
        Shift8IsInjective(x, y);
      }
      ShiftBytesIsInjective(n - 1, Shift8(x), Shift8(y));
    }
  }

  /** Two bodies that differ only within four consecutive bytes have different checksums. */
  lemma BurstChangesChecksum(prefix: seq<Byte>, w: seq<Byte>, v: seq<Byte>, suffix: seq<Byte>)
    requires |w| == |v| <= 4 && w != v
    ensures Checksum(prefix + w + suffix) != Checksum(prefix + v + suffix)
  {
    hide Add, Update, Pack, ShiftBytes;
    var r := Update(0xFFFF_FFFF, prefix);
    UpdateJoin(0xFFFF_FFFF, prefix + w, suffix);
    UpdateJoin(0xFFFF_FFFF, prefix, w);
    UpdateJoin(0xFFFF_FFFF, prefix + v, suffix);
    UpdateJoin(0xFFFF_FFFF, prefix, v);
    WindowIsAWord(r, w);
    WindowIsAWord(r, v);
    if Pack(w) == Pack(v) {
      PackIsInjective(w, v);
    }
    AddIsInjective(Pack(w), Pack(v), r);
    ShiftBytesIsInjective(|w|, Add(r, Pack(w)), Add(r, Pack(v)));
    SuffixKeepsDifference(Update(r, w), Update(r, v), suffix);
    AddIsInjective(Update(Update(r, w), suffix), Update(Update(r, v), suffix), 0xFFFF_FFFF);
  }

  // ---------------------------------------------------------------------
  // The published check value.

  lemma DigitBits()
    ensures Bits(0x31) == 0x31 && Bits(0x32) == 0x32 && Bits(0x33) == 0x33 && Bits(0x34) == 0x34 && Bits(0x35) == 0x35
    ensures Bits(0x36) == 0x36 && Bits(0x37) == 0x37 && Bits(0x38) == 0x38 && Bits(0x39) == 0x39
  {
  }

  lemma CheckValueBegins()
    ensures Update(0xFFFF_FFFF, [0x31, 0x32, 0x33]) == 0xEF84_D04D
  {
    hide Bits;
    assert Bits(0x31) == 0x31 by { DigitBits(); }
    assert Shift8(Add(0xFFFF_FFFF, 0x31)) == 0x6F0A_661C;
    assert Bits(0x32) == 0x32 by { DigitBits(); }
    assert Shift8(Add(0x6F0A_661C, 0x32)) == 0x8CAA_3B9F;
    assert Bits(0x33) == 0x33 by { DigitBits(); }
    assert Shift8(Add(0x8CAA_3B9F, 0x33)) == 0xEF84_D04D;
  }

  lemma CheckValueContinues()
    ensures Update(0xEF84_D04D, [0x34, 0x35, 0x36]) == 0xBECA_8E79
  {
    hide Bits;
    assert Bits(0x34) == 0x34 by { DigitBits(); }
    assert Shift8(Add(0xEF84_D04D, 0x34)) == 0x09C5_0B11;
    assert Bits(0x35) == 0x35 by { DigitBits(); }
    assert Shift8(Add(0x09C5_0B11, 0x35)) == 0xE72E_DCCA;
    assert Bits(0x36) == 0x36 by { DigitBits(); }
    assert Shift8(Add(0xE72E_DCCA, 0x36)) == 0xBECA_8E79;
  }

  lemma CheckValueEnds()
    ensures Update(0xBECA_8E79, [0x37, 0x38, 0x39]) == 0x1CF9_6D7C
  {
    hide Bits;
    assert Bits(0x37) == 0x37 by { DigitBits(); }
    assert Shift8(Add(0xBECA_8E79, 0x37)) == 0xEDBD_6815;
    assert Bits(0x38) == 0x38 by { DigitBits(); }
    assert Shift8(Add(0xEDBD_6815, 0x38)) == 0x9F78_7F65;
    assert Bits(0x39) == 0x39 by { DigitBits(); }
    assert Shift8(Add(0x9F78_7F65, 0x39)) == 0x1CF9_6D7C;
  }

  /** The checksum of the nine characters "123456789". */
  lemma CheckValue()
    ensures Checksum([0x31, 0x32, 0x33, 0x34, 0x35, 0x36, 0x37, 0x38, 0x39]) == 0xE306_9283
  {
    hide Update;
    CheckValueBegins();
    CheckValueContinues();
    CheckValueEnds();
    UpdateJoin(0xFFFF_FFFF, [0x31, 0x32, 0x33], [0x34, 0x35, 0x36, 0x37, 0x38, 0x39]);
    UpdateJoin(0xEF84_D04D, [0x34, 0x35, 0x36], [0x37, 0x38, 0x39]);
    assert [0x31, 0x32, 0x33, 0x34, 0x35, 0x36, 0x37, 0x38, 0x39]
        == [0x31, 0x32, 0x33] + [0x34, 0x35, 0x36, 0x37, 0x38, 0x39];
    assert [0x34, 0x35, 0x36, 0x37, 0x38, 0x39] == [0x34, 0x35, 0x36] + [0x37, 0x38, 0x39];
  }
}
