/** Flash layout and the upload header, as fixed by the bootloader. */
module FlashLayout {
  import opened Machine

  const FLASH_SIZE: nat := 0x10_0000
  const WORD: nat := 32
  const PRIMARY_OFFSET: nat := 0x2_0000
  const PRIMARY_SIZE: nat := 0x6_0000
  const SECONDARY_OFFSET: nat := 0x8_0000
  const SECONDARY_SIZE: nat := 0x8_0000
  const SECONDARY_END: nat := SECONDARY_OFFSET + SECONDARY_SIZE
  const STAGED_OFFSET: nat := 0xA_0000
  const MAX_IMAGE: nat := 0x4_0000
  const HEADER_SIZE: nat := 44
  const ERASED: Byte := 0xFF

  const TRAILER_MAGIC: seq<Byte> :=
    [0x20, 0x00, 0x2d, 0xe1, 0x5d, 0x29, 0x41, 0x0b, 0x8d, 0x77, 0x67, 0x9c, 0x11, 0x0f, 0x1f, 0x8a]
  const IMAGE_MAGIC: seq<Byte> := [0x3d, 0xb8, 0xf3, 0x96]
  const UPLOAD_MAGIC: seq<Byte> := ['F' as int, 'W' as int, 'U' as int, 'P' as int]

  function MagicOffset(slot: nat, size: nat): nat
    requires size >= 128
  {
    slot + size - 32
  }

  function ImageOkOffset(slot: nat, size: nat): nat
    requires size >= 128
  {
    MagicOffset(slot, size) - 32
  }

  function SwapInfoOffset(slot: nat, size: nat): nat
    requires size >= 128
  {
    ImageOkOffset(slot, size) - 64
  }

  function Filled(n: nat): (block: seq<Byte>)
    ensures |block| == n && forall i :: 0 <= i < n ==> block[i] == ERASED
  {
    seq(n, _ => ERASED)
  }

  function MagicBlock(): (block: seq<Byte>)
    ensures |block| == WORD
  {
    Filled(16) + TRAILER_MAGIC
  }

  /** A word that is erased except for its first byte. */
  function FlagBlock(flag: Byte): (block: seq<Byte>)
    ensures |block| == WORD && block[0] == flag
  {
    [flag] + Filled(31)
  }

  const SWAP_TYPE_TEST: Byte := 2
  const FLAG_SET: Byte := 1

  /** The length rounded up to whole words. */
  function Padded(n: nat): (m: nat)
    ensures n <= m < n + WORD && m % WORD == 0
  {
    (n + WORD - 1) / WORD * WORD
  }

  datatype Header = Header(imageLength: nat, sha256: seq<Byte>)
  datatype HeaderError = WrongMagic | UnsupportedVersion | NonzeroReservedBytes | InvalidLength

  function LittleEndian(b: seq<Byte>): nat
    requires |b| == 4
  {
    var b0: nat, b1: nat, b2: nat, b3: nat := b[0], b[1], b[2], b[3];
    b0 + 0x100 * b1 + 0x1_0000 * b2 + 0x100_0000 * b3
  }

  function Decode(bytes: seq<Byte>): Result<Header, HeaderError>
    requires |bytes| == HEADER_SIZE
  {
    if bytes[..4] != UPLOAD_MAGIC then Err(WrongMagic)
    else if bytes[4] != 1 then Err(UnsupportedVersion)
    else if bytes[5..8] != [0, 0, 0] then Err(NonzeroReservedBytes)
    else
      var length := LittleEndian(bytes[8..12]);
      if !(0x200 <= length <= MAX_IMAGE) then Err(InvalidLength) else Ok(Header(length, bytes[12..]))
  }

  /** The only bytes from which a header can be decoded. */
  function Encode(h: Header): seq<Byte>
    requires h.imageLength <= MAX_IMAGE
  {
    UPLOAD_MAGIC + [1, 0, 0, 0] +
    [h.imageLength % 0x100, h.imageLength / 0x100 % 0x100, h.imageLength / 0x1_0000, 0] + h.sha256
  }

  lemma LengthBytes(a: Byte, b: Byte, c: Byte, d: Byte, n: nat)
    requires n <= MAX_IMAGE
    ensures LittleEndian([a, b, c, d]) == n <==>
            a == n % 0x100 && b == n / 0x100 % 0x100 && c == n / 0x1_0000 && d == 0
  {
    var high: nat := c + 0x100 * d;
    var middle: nat := b + 0x100 * high;
    assert LittleEndian([a, b, c, d]) == a + 0x100 * middle;
    LowestDigit(n, a, middle);
    LowestDigit(n / 0x100, b, high);
    LowestDigit(n / 0x100 / 0x100, c, d);
    HighestDigit(n);
  }

  lemma LowestDigit(n: nat, digit: Byte, rest: nat)
    ensures n == digit + 0x100 * rest <==> digit == n % 0x100 && rest == n / 0x100
  {
  }

  lemma HighestDigit(n: nat)
    requires n <= MAX_IMAGE
    ensures n / 0x100 / 0x100 == n / 0x1_0000 <= 4
  {
  }

  /** A header is accepted exactly when it is the canonical form of an image length in range and a digest. */
  lemma DecodeIsCanonical(bytes: seq<Byte>, h: Header)
    requires |bytes| == HEADER_SIZE
    ensures Decode(bytes) == Ok(h) <==>
            0x200 <= h.imageLength <= MAX_IMAGE && |h.sha256| == 32 && bytes == Encode(h)
  {
    hide LittleEndian;
    var word := bytes[8..12];
    assert word == [bytes[8], bytes[9], bytes[10], bytes[11]];
    if h.imageLength <= MAX_IMAGE {
      LengthBytes(bytes[8], bytes[9], bytes[10], bytes[11], h.imageLength);
      if bytes == Encode(h) {
        assert bytes[..4] == UPLOAD_MAGIC && bytes[5..8] == [0, 0, 0] && bytes[12..] == h.sha256;
      }
      if Decode(bytes) == Ok(h) {
        assert bytes == bytes[..4] + [bytes[4]] + bytes[5..8] + word + bytes[12..];
      }
    }
  }

  /** Where the fields of an accepted header stand: magic, version, three zeros, length from the low byte, digest. */
  lemma HeaderFields(bytes: seq<Byte>)
    requires |bytes| == 44 && Decode(bytes).Ok?
    ensures bytes[0] == 'F' as int && bytes[1] == 'W' as int && bytes[2] == 'U' as int && bytes[3] == 'P' as int
    ensures bytes[4..8] == [1, 0, 0, 0] && bytes[12..44] == Decode(bytes).value.sha256
    ensures Decode(bytes).value.imageLength ==
            bytes[8] as nat + 256 * bytes[9] as nat + 65536 * bytes[10] as nat + 16777216 * bytes[11] as nat
    ensures 512 <= Decode(bytes).value.imageLength <= 262144
  {
    var magic, reserved, length := bytes[..4], bytes[5..8], bytes[8..12];
    assert magic[0] == bytes[0] && magic[1] == bytes[1] && magic[2] == bytes[2] && magic[3] == bytes[3];
    assert bytes[4..8] == [bytes[4]] + reserved;
    assert length[0] == bytes[8] && length[1] == bytes[9] && length[2] == bytes[10] && length[3] == bytes[11];
  }
}

/** The two devices an upload uses: on-chip flash and the authenticated byte stream. */
module UpdateDevices {
  import opened Machine
  import opened FlashLayout

  /** One programming operation: a word address and the bytes that were requested. */
  datatype Programmed = Programmed(offset: nat, word: seq<Byte>)

  /** The word operations that make up the first words of a write. */
  function Words(offset: nat, data: seq<Byte>, count: nat): (ws: seq<Programmed>)
    requires count * WORD <= |data|
    ensures |ws| == count
    ensures forall i :: 0 <= i < count ==>
              ws[i].offset == offset + i * WORD && ws[i].word == data[i * WORD..i * WORD + WORD]
  {
    seq(count, i requires 0 <= i < count => Programmed(offset + i * WORD, data[i * WORD..i * WORD + WORD]))
  }

  ghost predicate AgreesOutside(a: seq<Byte>, b: seq<Byte>, from: nat, to: nat) {
    |a| == |b| && forall i :: 0 <= i < |a| && !(from <= i < to) ==> a[i] == b[i]
  }

  /**
   * Flash that may fail. A programming operation may report an error, and a flash that is not `faithful`
   * may silently store anything in the word it was asked to program; a faithful one stores the requested
   * bytes, but only in a word that is still erased. A `dependable` flash reports no error.
   */
  class Flash {
    const cells: array<Byte>
    const faithful: bool
    const dependable: bool
    /** Completed erasures, and the operations and contents since the last one: every point a reset can hit. */
    ghost var erasures: nat
    ghost var operations: seq<Programmed>
    ghost var states: seq<seq<Byte>>

    ghost predicate Valid()
      reads this, cells
    {
      cells.Length == FLASH_SIZE && |states| > 0 && states[|states| - 1] == cells[..]
    }

    constructor (faithful: bool, dependable: bool)
      ensures Valid() && fresh(cells) && this.faithful == faithful && this.dependable == dependable
    {
      this.faithful := faithful;
      this.dependable := dependable;
      cells := new Byte[FLASH_SIZE](_ => ERASED);
      erasures := 0;
      operations := [];
      new;
      states := [cells[..]];
    }

    /** A failed erasure leaves anything in the range it was given. */
    method Erase(from: nat, to: nat) returns (ok: bool)
      requires Valid() && from <= to <= FLASH_SIZE
      modifies this, cells
      ensures Valid() && AgreesOutside(cells[..], old(cells[..]), from, to)
      ensures ok ==> forall i :: from <= i < to ==> cells[i] == ERASED
      ensures ok ==> erasures == old(erasures) + 1 && operations == [] && states == [cells[..]]
      ensures !ok ==> erasures == old(erasures) && operations == old(operations)
      ensures dependable ==> ok
    {
      ok := true;
      if !dependable {
        ok := *;
      }
      for i := from to to
        invariant forall k :: 0 <= k < FLASH_SIZE && !(from <= k < i) ==> cells[k] == old(cells[k])
        invariant ok ==> forall k :: from <= k < i ==> cells[k] == ERASED
        invariant cells.Length == FLASH_SIZE && erasures == old(erasures) && operations == old(operations)
      {
        var value: Byte := ERASED;
        if !ok {
          value := *;
        }
        cells[i] := value;
      }
      if ok {
        erasures, operations, states := erasures + 1, [], [cells[..]];
      } else {
        states := states + [cells[..]];
      }
    }

    method Read(offset: nat, count: nat) returns (r: Option<seq<Byte>>)
      requires Valid() && offset + count <= FLASH_SIZE
      ensures r.Some? ==> r.value == cells[offset..offset + count]
      ensures dependable ==> r.Some?
    {
      var ok := true;
      if !dependable {
        ok := *;
      }
      r := if ok then Some(cells[offset..offset + count]) else None;
    }

    method ProgramWord(offset: nat, word: seq<Byte>) returns (ok: bool)
      requires Valid() && offset + WORD <= FLASH_SIZE && |word| == WORD
      modifies this, cells
      ensures Valid() && AgreesOutside(cells[..], old(cells[..]), offset, offset + WORD)
      ensures erasures == old(erasures) && operations == old(operations) + [Programmed(offset, word)]
      ensures states == old(states) + [cells[..]]
      ensures dependable ==> ok
      ensures ok && faithful && (forall i :: offset <= i < offset + WORD ==> old(cells[i]) == ERASED) ==>
                forall i :: offset <= i < offset + WORD ==> cells[i] == word[i - offset]
    {
      ok := true;
      if !dependable {
        ok := *;
      }
      var blank := forall i :: offset <= i < offset + WORD ==> cells[i] == ERASED;
      for i := 0 to WORD
        invariant cells.Length == FLASH_SIZE
        invariant forall k :: 0 <= k < FLASH_SIZE && !(offset <= k < offset + i) ==> cells[k] == old(cells[k])
        invariant ok && faithful && blank ==> forall k :: offset <= k < offset + i ==> cells[k] == word[k - offset]
        invariant erasures == old(erasures) && operations == old(operations) && states == old(states)
      {
        var value: Byte := word[i];
        if !(ok && faithful && blank) {
          value := *;
        }
        cells[offset + i] := value;
      }
      operations := operations + [Programmed(offset, word)];
      states := states + [cells[..]];
    }

    /** Programs whole words in ascending order and stops at the first that reports an error. */
    method Write(offset: nat, data: seq<Byte>) returns (ok: bool, ghost count: nat)
      requires Valid()
      modifies this, cells
      ensures Valid() && erasures == old(erasures) && count * WORD <= |data| && (ok ==> count * WORD == |data|)
      ensures !(offset % WORD == 0 && |data| % WORD == 0 && offset + |data| <= FLASH_SIZE) ==> !ok && count == 0
      ensures AgreesOutside(cells[..], old(cells[..]), offset, offset + |data|)
      ensures operations == old(operations) + Words(offset, data, count)
      ensures |states| == old(|states|) + count && states[..old(|states|)] == old(states)
      ensures forall k :: old(|states|) <= k < |states| ==>
                AgreesOutside(states[k], old(cells[..]), offset, offset + |data|)
      ensures ok && faithful && (forall i :: offset <= i < offset + |data| ==> old(cells[i]) == ERASED) ==>
                forall i :: offset <= i < offset + |data| ==> cells[i] == data[i - offset]
      ensures dependable && offset % WORD == 0 && |data| % WORD == 0 && offset + |data| <= FLASH_SIZE ==> ok
    {
      count := 0;
      if offset % WORD != 0 || |data| % WORD != 0 || offset + |data| > FLASH_SIZE {
        return false, 0;
      }
      var i := 0;
      ok := true;
      while i < |data| / WORD
        invariant i <= |data| / WORD && count == i && ok && Valid() && erasures == old(erasures)
        invariant AgreesOutside(cells[..], old(cells[..]), offset, offset + i * WORD)
        invariant operations == old(operations) + Words(offset, data, i)
        invariant |states| == old(|states|) + i && states[..old(|states|)] == old(states)
        invariant forall k :: old(|states|) <= k < |states| ==>
                    AgreesOutside(states[k], old(cells[..]), offset, offset + |data|)
        invariant faithful && (forall k :: offset <= k < offset + |data| ==> old(cells[k]) == ERASED) ==>
                    forall k :: offset <= k < offset + i * WORD ==> cells[k] == data[k - offset]
      {
        ok := ProgramWord(offset + i * WORD, data[i * WORD..i * WORD + WORD]);
        count := i + 1;
        assert Words(offset, data, i + 1)
            == Words(offset, data, i) + [Programmed(offset + i * WORD, data[i * WORD..i * WORD + WORD])];
        if !ok {
          return;
        }
        i := i + 1;
      }
    }
  }

  datatype Reply =
    | Erasing | Ready | Progress(received: nat, total: nat)
    | InvalidHeader | EraseFailed | NotAnImage | WriteFailed | TransferDigest
    | ReadBackFailed | ReadBackDigest | MarkerFailed | Rebooting

  /** Reads deliver any number of the next bytes; an undependable stream may fail at any call. */
  class Stream {
    const input: seq<Byte>
    const dependable: bool
    var position: nat
    ghost var sent: seq<Reply>

    ghost predicate Valid()
      reads this
    {
      position <= |input|
    }

    constructor (input: seq<Byte>, dependable: bool)
      ensures Valid() && position == 0 && this.input == input && this.dependable == dependable && sent == []
    {
      this.input := input;
      this.dependable := dependable;
      position := 0;
      sent := [];
    }

    /** Zero bytes delivered to a nonempty destination means the end of the stream. */
    method Read(buffer: array<Byte>, from: nat, to: nat) returns (r: Option<nat>)
      requires Valid() && from <= to <= buffer.Length
      modifies this`position, buffer
      ensures Valid()
      ensures r.None? ==> position == old(position)
      ensures r.Some? ==> r.value <= to - from && position == old(position) + r.value
      ensures r.Some? ==> buffer[from..from + r.value] == input[old(position)..position]
      ensures forall i :: 0 <= i < buffer.Length && !(r.Some? && from <= i < from + r.value) ==>
                buffer[i] == old(buffer[i])
      ensures dependable ==> r.Some?
      ensures dependable && from < to && old(position) < |input| ==> r.value > 0
    {
      if !dependable {
        var ok: bool := *;
        if !ok {
          return None;
        }
      }
      var count: nat := if to - from < |input| - position then to - from else |input| - position;
      var some: nat := *;
      if 0 <= some < count && (some > 0 || !dependable) {
        count := some;
      }
      forall i | 0 <= i < count {
        buffer[from + i] := input[position + i];
      }
      position := position + count;
      assert buffer[from..from + count] == input[old(position)..position];
      return Some(count);
    }

    method Send(reply: Reply) returns (ok: bool)
      modifies this`sent
      ensures sent == old(sent) + [reply]
      ensures dependable ==> ok
    {
      sent := sent + [reply];
      ok := true;
      if !dependable {
        ok := *;
      }
    }
  }
}
