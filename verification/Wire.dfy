/** The wire primitives of the Protocol Buffers encoding: varints, fixed words, length-delimited records, skipping. */
module Wire {
  import opened Machine
  import Utf8

  datatype Parsed<+T> = Parsed(value: T, rest: Text)

  const MAX_VARINT: nat := 10
  const TWO_32: nat := 0x1_0000_0000
  const TWO_64: nat := 0x1_0000_0000_0000_0000

  // ---------------------------------------------------------------------
  // Base 128 varints.

  function Varint(n: nat): (bytes: Text)
    ensures bytes != []
  {
    if n < 128 then [n] else [n % 128 + 128] + Varint(n / 128)
  }

  /** The unbounded value of a varint of at most so many bytes. */
  function Groups(bytes: Text, limit: nat): (r: Option<Parsed<nat>>)
    ensures r.Some? ==> |r.value.rest| < |bytes|
    decreases limit
  {
    if limit == 0 || bytes == [] then None
    else if bytes[0] < 128 then Some(Parsed(bytes[0], bytes[1..]))
    else match Groups(bytes[1..], limit - 1)
      case None => None
      case Some(p) => Some(Parsed(bytes[0] - 128 + 128 * p.value, p.rest))
  }

  /** Reading keeps the low 32 bits. */
  function ReadVarint32(bytes: Text): (r: Option<Parsed<u32>>)
    ensures r.Some? ==> |r.value.rest| < |bytes|
  {
    match Groups(bytes, MAX_VARINT)
    case None => None
    case Some(p) => Some(Parsed(Wrap32(p.value), p.rest))
  }

  function Base(k: nat): (n: nat)
    ensures n >= 1
  {
    if k == 0 then 1 else 128 * Base(k - 1)
  }

  lemma {:induction false} VarintRoundTrip(n: nat, rest: Text, limit: nat)
    requires limit > 0 && n < Base(limit)
    ensures Groups(Varint(n) + rest, limit) == Some(Parsed(n, rest))
    decreases limit
  {
    var bytes := Varint(n) + rest;
    if n < 128 {
      assert bytes[1..] == rest;
    } else {
      assert bytes[1..] == Varint(n / 128) + rest;
      VarintRoundTrip(n / 128, rest, limit - 1);
    }
  }

  lemma BaseBounds()
    ensures Base(1) == 0x80 && Base(2) == 0x4000 && Base(3) == 0x20_0000 && Base(4) == 0x1000_0000
    ensures Base(5) == 0x8_0000_0000 && Base(9) == 0x8000_0000_0000_0000 && Base(10) == 0x40_0000_0000_0000_0000
  {
    assert Base(0) == 1;
    assert Base(6) == 0x400_0000_0000 && Base(7) == 0x2_0000_0000_0000 && Base(8) == 0x100_0000_0000_0000;
  }

  lemma Varint64RoundTrip(n: nat, rest: Text)
    requires n < TWO_64
    ensures ReadVarint32(Varint(n) + rest) == Some(Parsed(Wrap32(n), rest))
  {
    BaseBounds();
    VarintRoundTrip(n, rest, MAX_VARINT);
  }

  lemma Varint32RoundTrip(n: u32, rest: Text)
    ensures ReadVarint32(Varint(n) + rest) == Some(Parsed(n, rest))
  {
    WrapSmall(n);
    hide Varint, ReadVarint32, Wrap32;
    Varint64RoundTrip(n, rest);
  }

  lemma WrapSmall(n: u32)
    ensures Wrap32(n) == n
  {
  }

  /** What is read does not depend on what follows. */
  lemma {:induction false} GroupsExtend(a: Text, b: Text, limit: nat)
    requires Groups(a, limit).Some?
    ensures Groups(a + b, limit) == Some(Parsed(Groups(a, limit).value.value, Groups(a, limit).value.rest + b))
    decreases limit
  {
    assert (a + b)[1..] == a[1..] + b;
    if a[0] >= 128 {
      GroupsExtend(a[1..], b, limit - 1);
    }
  }

  lemma ReadVarint32Extends(a: Text, b: Text)
    requires ReadVarint32(a).Some?
    ensures ReadVarint32(a + b)
         == Some(Parsed(ReadVarint32(a).value.value, ReadVarint32(a).value.rest + b))
  {
    GroupsExtend(a, b, MAX_VARINT);
  }

  /** A varint can be read exactly if one of the first ten bytes ends it. */
  lemma {:induction false} VarintsEnd(bytes: Text, limit: nat)
    ensures Groups(bytes, limit).Some? <==> exists k :: 0 <= k < limit && k < |bytes| && bytes[k] < 128
    decreases limit
  {
    if limit > 0 && bytes != [] && bytes[0] >= 128 {
      var rest := bytes[1..];
      VarintsEnd(rest, limit - 1);
      if Groups(rest, limit - 1).Some? {
        var k :| 0 <= k < limit - 1 && k < |rest| && rest[k] < 128;
        assert bytes[k + 1] == rest[k];
      }
    }
  }

  lemma VarintsEndWithinTen(bytes: Text)
    ensures ReadVarint32(bytes).Some? <==> exists k :: 0 <= k < 10 && k < |bytes| && bytes[k] < 128
  {
    VarintsEnd(bytes, MAX_VARINT);
  }

  /** The library's size of a 32-bit varint. */
  function SizeOfVarint32(n: u32): nat {
    if n < 0x80 then 1 else if n < 0x4000 then 2 else if n < 0x20_0000 then 3 else if n < 0x1000_0000 then 4 else 5
  }

  lemma {:induction false} VarintLength(n: nat, k: nat)
    requires k > 0 && n < Base(k) && (k > 1 ==> Base(k - 1) <= n)
    ensures |Varint(n)| == k
    decreases k
  {
    if k > 1 {
      assert Base(k) == 128 * Base(k - 1);
      if k > 2 {
        assert Base(k - 1) == 128 * Base(k - 2);
      } else {
        assert Base(1) == 128 * Base(0) && Base(0) == 1;
      }
      VarintLength(n / 128, k - 1);
    }
  }

  lemma SizeOfVarint32IsLength(n: u32)
    ensures SizeOfVarint32(n) == |Varint(n)|
  {
    BaseBounds();
    VarintLength(n, SizeOfVarint32(n));
  }

  // ---------------------------------------------------------------------
  // Scalar kinds.

  datatype Kind = Varint32 | Int32 | Bool | Fixed32 | Chars(capacity: nat)

  /** Integers, booleans and floats are numbers; a float is its bit pattern. */
  datatype Value = Number(n: int) | Characters(text: Text)

  predicate Fits(kind: Kind, v: Value) {
    match kind
    case Varint32 | Fixed32 => v.Number? && 0 <= v.n < TWO_32
    case Int32 => v.Number? && -0x8000_0000 <= v.n <= 0x7FFF_FFFF
    case Bool => v.Number? && 0 <= v.n <= 1
    case Chars(capacity) => v.Characters? && |v.text| <= capacity < TWO_32 && Utf8.Valid(v.text)
  }

  function WireType(kind: Kind): nat {
    match kind
    case Varint32 | Int32 | Bool => 0
    case Chars(_) => 2
    case Fixed32 => 5
  }

  /** Negative numbers are sign-extended to 64 bits. */
  function Unsigned64(v: int): nat
    requires -0x8000_0000 <= v
  {
    if v < 0 then TWO_64 + v else v
  }

  function Signed32(n: u32): i32 {
    if n < 0x8000_0000 then n else n - TWO_32
  }

  function FixedBytes(n: nat): (bytes: Text)
    requires n < TWO_32
    ensures |bytes| == 4
  {
    [n % 0x100, n / 0x100 % 0x100, n / 0x1_0000 % 0x100, n / 0x100_0000]
  }

  function FixedValue(bytes: Text): u32
    requires |bytes| >= 4
  {
    var b0: nat, b1: nat, b2: nat, b3: nat := bytes[0], bytes[1], bytes[2], bytes[3];
    b0 + 0x100 * b1 + 0x1_0000 * b2 + 0x100_0000 * b3
  }

  lemma FixedRoundTrip(n: nat, rest: Text)
    requires n < TWO_32
    ensures FixedValue(FixedBytes(n) + rest) == n && (FixedBytes(n) + rest)[4..] == rest
  {
  }

  /** Byte k of a fixed word weighs 256 to the power k: the lowest byte comes first. */
  lemma FixedBytesAreLittleEndian(n: nat, b0: Byte, b1: Byte, b2: Byte, b3: Byte)
    requires n == b0 + 256 * b1 + 65536 * b2 + 16777216 * b3
    ensures n < TWO_32 && FixedBytes(n) == [b0, b1, b2, b3]
  {
    var m: nat := b0 + 256 * b1;
    var high: nat := b2 + 256 * b3;
    assert n == m + 65536 * high && n / 65536 == high && n % 65536 == m;
    assert n / 256 == b1 + 256 * high;
  }

  /** So does the lowest group of a varint, seven bits to a byte, with the high bit on all but the last. */
  lemma {:induction false} VarintGroups(n: nat, k: nat)
    requires k < |Varint(n)|
    ensures Varint(n)[k] == n / Base(k) % 128 + if k == |Varint(n)| - 1 then 0 else 128
    decreases k
  {
    assert Base(0) == 1;
    if k > 0 {
      var rest := Varint(n / 128);
      assert Varint(n) == [n % 128 + 128] + rest;
      hide Varint, Base;
      VarintGroups(n / 128, k - 1);
      DivideTwice(n, k);
    }
  }

  lemma DivideTwice(n: nat, k: nat)
    requires k > 0
    ensures n / 128 / Base(k - 1) == n / Base(k)
  {
    var b := Base(k - 1);
    var q := n / Base(k);
    DivisionBounds(n, Base(k));
    assert q * Base(k) == q * b * 128 by {
      assert Base(k) == 128 * b;
    }
    var m := n / 128;
    DivisionBounds(n, 128);
    assert (q * b) * 128 <= n < (q * b + b) * 128;
    assert q * b <= m < q * b + b;
    QuotientIs(m, b, q);
  }

  function WriteValue(kind: Kind, v: Value): Text
    requires Fits(kind, v)
  {
    match kind
    case Varint32 => Varint(v.n)
    case Int32 => Varint(Unsigned64(v.n))
    case Bool => [v.n]
    case Fixed32 => FixedBytes(v.n)
    case Chars(_) => Varint(|v.text|) + v.text
  }

  /** A length-delimited record. */
  function ReadRecord(bytes: Text): (r: Option<Parsed<Text>>)
    ensures r.Some? ==> |r.value.rest| + |r.value.value| < |bytes|
  {
    match ReadVarint32(bytes)
    case None => None
    case Some(p) => if p.value > |p.rest| then None else Some(Parsed(p.rest[..p.value], p.rest[p.value..]))
  }

  function ReadValue(kind: Kind, bytes: Text): (r: Option<Parsed<Value>>)
    ensures r.Some? ==> |r.value.rest| < |bytes|
  {
    match kind
    case Varint32 | Int32 | Bool =>
      (match ReadVarint32(bytes)
       case None => None
       case Some(p) =>
         var n := if kind == Int32 then Signed32(p.value) else if kind == Bool && p.value != 0 then 1 else p.value;
         Some(Parsed(Number(n), p.rest)))
    case Fixed32 => if |bytes| < 4 then None else Some(Parsed(Number(FixedValue(bytes)), bytes[4..]))
    case Chars(capacity) =>
      match ReadRecord(bytes)
      case None => None
      case Some(p) =>
        if |p.value| > capacity || !Utf8.Valid(p.value) then None else Some(Parsed(Characters(p.value), p.rest))
  }

  /** Passing over a value whose field is not known; groups are refused. */
  function Skip(wireType: nat, bytes: Text): (r: Option<Text>)
    ensures r.Some? ==> |r.value| < |bytes|
  {
    match wireType
    case 0 => (match ReadVarint32(bytes) case Some(p) => Some(p.rest) case None => None)
    case 1 => if |bytes| < 8 then None else Some(bytes[8..])
    case 2 => (match ReadRecord(bytes) case Some(p) => Some(p.rest) case None => None)
    case 5 => if |bytes| < 4 then None else Some(bytes[4..])
    case _ => None
  }

  // ---------------------------------------------------------------------
  // Round trips, sizes, and independence of what follows.

  lemma RecordRoundTrip(record: Text, rest: Text)
    requires |record| < TWO_32
    ensures ReadRecord(Varint(|record|) + record + rest) == Some(Parsed(record, rest))
  {
    hide Varint, ReadVarint32;
    Varint32RoundTrip(|record|, record + rest);
    assert Varint(|record|) + record + rest == Varint(|record|) + (record + rest);
  }

  lemma SignExtension(v: int)
    requires -0x8000_0000 <= v <= 0x7FFF_FFFF
    ensures Unsigned64(v) < TWO_64 && Signed32(Wrap32(Unsigned64(v))) == v
  {
  }

  lemma ValueRoundTrip(kind: Kind, v: Value, rest: Text)
    requires Fits(kind, v)
    ensures ReadValue(kind, WriteValue(kind, v) + rest) == Some(Parsed(v, rest))
  {
    var smallVarint := v.Number? && 0 <= v.n < 128 ==> Varint(v.n) == [v.n];
    assert smallVarint;
    hide Varint, ReadVarint32, ReadRecord, FixedBytes, FixedValue, Wrap32, Signed32, Unsigned64, Utf8.Valid;
    match kind
    case Varint32 => Varint32RoundTrip(v.n, rest);
    case Int32 =>
      SignExtension(v.n);
      Varint64RoundTrip(Unsigned64(v.n), rest);
    case Bool => Varint32RoundTrip(v.n, rest);
    case Fixed32 => FixedRoundTrip(v.n, rest);
    case Chars(_) => RecordRoundTrip(v.text, rest);
  }

  function SizeOfRecord(length: nat): nat {
    SizeOfVarint32(if length < TWO_32 then length else 0) + length
  }

  function SizeOfValue(kind: Kind, v: Value): nat
    requires Fits(kind, v)
  {
    match kind
    case Varint32 => SizeOfVarint32(v.n)
    case Int32 => if v.n < 0 then 10 else SizeOfVarint32(v.n)
    case Bool => 1
    case Fixed32 => 4
    case Chars(_) => SizeOfRecord(|v.text|)
  }

  function MaxSizeOfKind(kind: Kind): nat {
    match kind
    case Varint32 => 5
    case Int32 => 10
    case Bool => 1
    case Fixed32 => 4
    case Chars(capacity) => SizeOfRecord(capacity)
  }

  lemma SizeOfRecordGrows(m: nat, n: nat)
    requires m <= n < TWO_32
    ensures SizeOfRecord(m) <= SizeOfRecord(n)
  {
  }

  lemma ValueSize(kind: Kind, v: Value)
    requires Fits(kind, v)
    ensures SizeOfValue(kind, v) == |WriteValue(kind, v)| <= MaxSizeOfKind(kind)
  {
    match kind
    case Varint32 => SizeOfVarint32IsLength(v.n);
    case Int32 =>
      if v.n < 0 {
        BaseBounds();
        VarintLength(Unsigned64(v.n), 10);
      } else {
        SizeOfVarint32IsLength(v.n);
      }
    case Bool =>
    case Fixed32 =>
    case Chars(capacity) =>
      SizeOfVarint32IsLength(|v.text|);
      SizeOfRecordGrows(|v.text|, capacity);
  }

  lemma ReadRecordExtends(a: Text, b: Text)
    requires ReadRecord(a).Some?
    ensures ReadRecord(a + b) == Some(Parsed(ReadRecord(a).value.value, ReadRecord(a).value.rest + b))
  {
    hide ReadVarint32;
    ReadVarint32Extends(a, b);
    var p := ReadVarint32(a).value;
    assert (p.rest + b)[..p.value] == p.rest[..p.value] && (p.rest + b)[p.value..] == p.rest[p.value..] + b;
  }

  lemma ReadValueExtends(kind: Kind, a: Text, b: Text)
    requires ReadValue(kind, a).Some?
    ensures ReadValue(kind, a + b) == Some(Parsed(ReadValue(kind, a).value.value, ReadValue(kind, a).value.rest + b))
  {
    match kind
    case Varint32 | Int32 | Bool => ReadVarint32Extends(a, b);
    case Fixed32 => assert (a + b)[4..] == a[4..] + b;
    case Chars(_) => ReadRecordExtends(a, b);
  }

  lemma SkipExtends(wireType: nat, a: Text, b: Text)
    requires Skip(wireType, a).Some?
    ensures Skip(wireType, a + b) == Some(Skip(wireType, a).value + b)
  {
    match wireType
    case 0 => ReadVarint32Extends(a, b);
    case 1 => assert (a + b)[8..] == a[8..] + b;
    case 2 => ReadRecordExtends(a, b);
    case 5 => assert (a + b)[4..] == a[4..] + b;
  }
}
