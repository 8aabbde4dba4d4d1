/** Fixed-width machine integers, saturating arithmetic and byte strings. */
module Machine {
  datatype Option<+T> = None | Some(value: T)
  datatype Result<+T, +E> = Ok(value: T) | Err(error: E) {
    predicate IsFailure() {
      Err?
    }

    function PropagateFailure<U>(): Result<U, E>
      requires Err?
    {
      Err(error)
    }

    function Extract(): T
      requires Ok?
    {
      value
    }
  }

  const U32_MAX: int := 0xFFFF_FFFF
  const U64_MAX: int := 0xFFFF_FFFF_FFFF_FFFF

  type Byte = x: int | 0 <= x <= 0xFF
  type u32 = x: int | 0 <= x <= 0xFFFF_FFFF
  type u64 = x: int | 0 <= x <= 0xFFFF_FFFF_FFFF_FFFF
  type i32 = x: int | -0x8000_0000 <= x <= 0x7FFF_FFFF

  /** Text is the byte content of a bounded string; the bound is part of the type. */
  type Text = seq<Byte>
  type Text16 = s: Text | |s| <= 16
  type Text32 = s: Text | |s| <= 32
  type Text512 = s: Text | |s| <= 512

  function Min(a: int, b: int): int {
    if a < b then a else b
  }

  function SaturatingAdd32(a: u32, b: nat): u32 {
    if a + b > U32_MAX then U32_MAX else a + b
  }

  function SaturatingAdd64(a: u64, b: nat): u64 {
    if a + b > U64_MAX then U64_MAX else a + b
  }

  function SaturatingSub(a: nat, b: nat): nat {
    if a < b then 0 else a - b
  }

  /** Truncation to 32 bits, also the meaning of wrapping 32-bit addition. */
  function Wrap32(a: nat): u32 {
    a % 0x1_0000_0000
  }

  lemma WrapAdds(n: nat, m: nat)
    ensures Wrap32(Wrap32(n) + m) == Wrap32(n + m)
  {
  }

  predicate IsDigit(b: Byte) {
    '0' as int <= b <= '9' as int
  }

  predicate IsAlphanumeric(b: Byte) {
    IsDigit(b) || 'A' as int <= b <= 'Z' as int || 'a' as int <= b <= 'z' as int
  }

  lemma DivisionBounds(a: nat, b: nat)
    requires b > 0
    ensures 0 <= a / b <= a && 0 <= a % b < b && a == a / b * b + a % b
  {
    var q, r := a / b, a % b;
    assert a == q * b + r;
    ScaleGrows(q, b);
  }

  lemma ScaleGrows(q: int, b: int)
    requires b > 0
    ensures q >= 0 ==> q <= q * b
    ensures q < 0 ==> q * b <= -b
    decreases if q < 0 then -q else q
  {
    if q > 0 {
      ScaleGrows(q - 1, b);
      assert q * b == (q - 1) * b + b;
    } else if q < -1 {
      ScaleGrows(q + 1, b);
      assert q * b == (q + 1) * b - b;
    }
  }

  /** A quotient is determined by its bounds. */
  lemma QuotientIs(a: nat, b: nat, q: nat)
    requires b > 0 && q * b <= a < (q + 1) * b
    ensures a / b == q && a % b == a - q * b
  {
    DivisionBounds(a, b);
    var d := a / b - q;
    assert d * b == a / b * b - q * b;
    ScaleGrows(d, b);
  }
}
