/** Staging of one signed image: bounded transfer, padded programming, two digests, and the activation marker last. */
module FirmwareUpdate {
  import opened Machine
  import opened FlashLayout
  import opened UpdateDevices

  const TRANSFER_BUFFER: nat := 1024
  const PROGRESS_INTERVAL: nat := 0x4000

  const SWAP_INFO: nat := SwapInfoOffset(SECONDARY_OFFSET, SECONDARY_SIZE)
  const MAGIC: nat := MagicOffset(SECONDARY_OFFSET, SECONDARY_SIZE)

  type Hash = seq<Byte> -> seq<Byte>

  datatype Outcome = Finished(reply: Reply) | StreamFailed

  // ---------------------------------------------------------------------
  // What an upload says and what flash contents mean.

  /** The header an upload starts with, if it has an acceptable one. */
  function HeaderOf(upload: seq<Byte>): Option<Header> {
    if |upload| < HEADER_SIZE then None
    else match Decode(upload[..HEADER_SIZE])
      case Ok(h) => Some(h)
      case Err(_) => None
  }

  /** A complete image whose length, first bytes and digest are those its header promises. */
  ghost predicate Acceptable(upload: seq<Byte>, hash: Hash) {
    var h := HeaderOf(upload);
    h.Some? && |upload| >= HEADER_SIZE + h.value.imageLength &&
    var image := upload[HEADER_SIZE..HEADER_SIZE + h.value.imageLength];
    IMAGE_MAGIC <= image && hash(image) == h.value.sha256
  }

  predicate BlankFrom(contents: seq<Byte>, from: nat) {
    |contents| == FLASH_SIZE && forall i :: from <= i < SECONDARY_END ==> contents[i] == ERASED
  }

  /** The staged bytes, as the bootloader would find them, have the digest of the header. */
  ghost predicate StagedDigestMatches(contents: seq<Byte>, upload: seq<Byte>, hash: Hash) {
    |contents| == FLASH_SIZE && HeaderOf(upload).Some? &&
    var n := HeaderOf(upload).value.imageLength;
    n <= MAX_IMAGE && hash(contents[STAGED_OFFSET..STAGED_OFFSET + n]) == HeaderOf(upload).value.sha256
  }

  /** Contents with which a reset is harmless: nothing is activated, or exactly the verified upload is. */
  ghost predicate CrashSafe(contents: seq<Byte>, upload: seq<Byte>, hash: Hash) {
    BlankFrom(contents, MAGIC) || (Acceptable(upload, hash) && StagedDigestMatches(contents, upload, hash))
  }

  /** Word operations are aligned, inside the staging area and strictly ascending, so no word is programmed twice. */
  ghost predicate Ascending(ops: seq<Programmed>, top: nat) {
    (forall i :: 0 <= i < |ops| ==>
       ops[i].offset % WORD == 0 && STAGED_OFFSET <= ops[i].offset && ops[i].offset + WORD <= top) &&
    forall i, j :: 0 <= i < j < |ops| ==> ops[i].offset < ops[j].offset
  }

  /** Everything below `top` may have been programmed, nothing from there to the end of the slot has. */
  ghost predicate ProgrammedTo(flash: Flash, top: nat)
    reads flash, flash.cells
  {
    flash.Valid() && top % WORD == 0 && STAGED_OFFSET <= top <= MAGIC && Ascending(flash.operations, top) &&
    BlankFrom(flash.cells[..], top) &&
    forall k :: 0 <= k < |flash.states| ==> BlankFrom(flash.states[k], MAGIC)
  }

  /** What happens when neither device fails: the first reason to stop, in the order the checks are made. */
  ghost function Verdict(upload: seq<Byte>, hash: Hash): Outcome {
    if |upload| < HEADER_SIZE then StreamFailed
    else if HeaderOf(upload).None? then Finished(InvalidHeader)
    else
      var h := HeaderOf(upload).value;
      var rest := upload[HEADER_SIZE..];
      if |rest| < Min(TRANSFER_BUFFER, h.imageLength) then StreamFailed
      else if !(IMAGE_MAGIC <= rest) then Finished(NotAnImage)
      else if |rest| < h.imageLength then StreamFailed
      else if hash(rest[..h.imageLength]) != h.sha256 then Finished(TransferDigest)
      else Finished(Rebooting)
  }

  lemma HeaderInRange(upload: seq<Byte>)
    requires HeaderOf(upload).Some?
    ensures 0x200 <= HeaderOf(upload).value.imageLength <= MAX_IMAGE
  {
  }

  lemma AscendingGrows(ops: seq<Programmed>, top: nat, data: seq<Byte>, count: nat)
    requires Ascending(ops, top) && top % WORD == 0 && STAGED_OFFSET <= top && count * WORD <= |data|
    ensures Ascending(ops + Words(top, data, count), top + |data|)
  {
    var words := Words(top, data, count);
    var all := ops + words;
    forall i | |ops| <= i < |all|
      ensures all[i].offset % WORD == 0 && top <= all[i].offset && all[i].offset + WORD <= top + |data|
    {
      assert all[i] == words[i - |ops|];
    }
    forall i, j | 0 <= i < j < |all|
      ensures all[i].offset < all[j].offset
    {
      if i >= |ops| {
        assert all[i] == words[i - |ops|] && all[j] == words[j - |ops|];
      }
    }
  }

  // ---------------------------------------------------------------------
  // The stream.

  method ReadExact(stream: Stream, buffer: array<Byte>, count: nat) returns (ok: bool)
    requires stream.Valid() && count <= buffer.Length
    modifies stream`position, buffer
    ensures stream.Valid() && old(stream.position) <= stream.position <= old(stream.position) + count
    ensures ok ==> stream.position == old(stream.position) + count
    ensures ok ==> buffer[..count] == stream.input[old(stream.position)..stream.position]
    ensures forall i :: count <= i < buffer.Length ==> buffer[i] == old(buffer[i])
    ensures stream.dependable ==> (ok <==> old(stream.position) + count <= |stream.input|)
  {
    var filled := 0;
    while filled < count
      invariant filled <= count && stream.Valid() && stream.position == old(stream.position) + filled
      invariant buffer[..filled] == stream.input[old(stream.position)..stream.position]
      invariant forall i :: count <= i < buffer.Length ==> buffer[i] == old(buffer[i])
    {
      ghost var before, at := buffer[..filled], stream.position;
      var r := stream.Read(buffer, filled, count);
      if r.None? || r.value == 0 {
        return false;
      }
      assert buffer[..filled] == before;
      assert buffer[..filled + r.value] == before + buffer[filled..filled + r.value];
      assert stream.input[old(stream.position)..stream.position]
          == stream.input[old(stream.position)..at] + stream.input[at..stream.position];
      filled := filled + r.value;
    }
    return true;
  }

  method Conclude(stream: Stream, reply: Reply) returns (r: Outcome)
    modifies stream`sent
    ensures r == StreamFailed || r == Finished(reply)
    ensures stream.sent == old(stream.sent) + [reply]
    ensures stream.dependable ==> r == Finished(reply)
  {
    var ok := stream.Send(reply);
    r := if ok then Finished(reply) else StreamFailed;
  }

  // ---------------------------------------------------------------------
  // The phases of an upload.

  /** Programs one padded chunk directly above what has been programmed. */
  method StageChunk(flash: Flash, top: nat, data: seq<Byte>) returns (ok: bool)
    requires ProgrammedTo(flash, top) && |data| % WORD == 0 && top + |data| <= MAGIC
    modifies flash, flash.cells
    ensures ProgrammedTo(flash, top + |data|) && flash.erasures == old(flash.erasures)
    ensures AgreesOutside(flash.cells[..], old(flash.cells[..]), top, top + |data|)
    ensures ok && flash.faithful ==>
              flash.cells[STAGED_OFFSET..top + |data|] == old(flash.cells[STAGED_OFFSET..top]) + data
    ensures flash.dependable ==> ok
  {
    ghost var count;
    ok, count := flash.Write(top, data);
    AscendingGrows(old(flash.operations), top, data, count);
    forall k | 0 <= k < |flash.states|
      ensures BlankFrom(flash.states[k], MAGIC)
    {
      if k < |old(flash.states)| {
        assert flash.states[k] == old(flash.states)[k];
      }
    }
    assert flash.cells[STAGED_OFFSET..top] == old(flash.cells[STAGED_OFFSET..top]);
  }

  /** The image with the erased bytes that fill its last word. */
  function PaddedImage(image: seq<Byte>): seq<Byte> {
    image + Filled(Padded(|image|) - |image|)
  }

  /** Why reception would stop early on devices that do not fail. */
  function ImageVerdict(rest: seq<Byte>, length: nat): Option<Outcome> {
    if |rest| < Min(TRANSFER_BUFFER, length) then Some(StreamFailed)
    else if !(IMAGE_MAGIC <= rest) then Some(Finished(NotAnImage))
    else if |rest| < length then Some(StreamFailed)
    else None
  }

  /** The reports due once so much has arrived: one at every 16 KiB short of the end, and one at the end. */
  function Milestones(length: nat, received: nat): seq<Reply> {
    seq(Min(received, SaturatingSub(length, 1)) / 0x4000, k requires k >= 0 => Progress((k + 1) * 0x4000, length)) +
    if received == length then [Progress(length, length)] else []
  }

  lemma MilestonesGrow(length: nat, received: nat, count: nat)
    requires received % TRANSFER_BUFFER == 0 && 0 < count == Min(TRANSFER_BUFFER, length - received)
    ensures var now := received + count;
            var due := now >= (received / 0x4000 + 1) * 0x4000 || now == length;
            Milestones(length, now) == Milestones(length, received) + (if due then [Progress(now, length)] else []) &&
            (due && now < length ==> now % 0x4000 == 0 && now / 0x4000 == received / 0x4000 + 1) &&
            (!due ==> now / 0x4000 == received / 0x4000)
  {
    var blocks, now := received / TRANSFER_BUFFER, received + count;
    assert received == blocks * TRANSFER_BUFFER && received / 0x4000 == blocks / 16;
    if now < length {
      assert now == (blocks + 1) * TRANSFER_BUFFER && now / 0x4000 == (blocks + 1) / 16;
    } else {
      assert (length - 1) / TRANSFER_BUFFER == blocks && (length - 1) / 0x4000 == blocks / 16;
    }
  }

  lemma PaddingComesLast(image: seq<Byte>, chunk: seq<Byte>, padded: seq<Byte>)
    requires |image| % TRANSFER_BUFFER == 0 && padded == PaddedImage(chunk)
    ensures Padded(|image|) == |image| && Padded(|image + chunk|) == |image| + |padded|
    ensures PaddedImage(image) == image && PaddedImage(image + chunk) == image + padded
  {
    PaddedAdds(|image|, |chunk|);
    hide Padded;
    assert Filled(0) == [];
    assert Filled(Padded(|image + chunk|) - |image + chunk|) == Filled(Padded(|chunk|) - |chunk|);
    assert image + (chunk + Filled(Padded(|chunk|) - |chunk|)) == image + chunk + Filled(Padded(|chunk|) - |chunk|);
  }

  lemma PaddedAdds(n: nat, m: nat)
    requires n % TRANSFER_BUFFER == 0
    ensures Padded(n) == n && Padded(n + m) == n + Padded(m)
  {
    var words := n / TRANSFER_BUFFER * 32;
    assert n == words * WORD;
    assert (n + WORD - 1) / WORD == words;
    assert (n + m + WORD - 1) / WORD == words + (m + WORD - 1) / WORD;
  }

  lemma BufferIsPadded(buffer: seq<Byte>, count: nat)
    requires |buffer| == TRANSFER_BUFFER && count <= TRANSFER_BUFFER
    requires forall i :: count <= i < TRANSFER_BUFFER ==> buffer[i] == ERASED
    ensures Padded(count) <= TRANSFER_BUFFER && buffer[..Padded(count)] == PaddedImage(buffer[..count])
  {
  }

  lemma ProgrammedFurther(flash: Flash, top: nat, further: nat)
    requires ProgrammedTo(flash, top) && top <= further <= MAGIC && further % WORD == 0
    ensures ProgrammedTo(flash, further)
  {
  }

  lemma AgreesLonger(a: seq<Byte>, b: seq<Byte>, c: seq<Byte>, from: nat, to: nat, lower: nat, upper: nat)
    requires AgreesOutside(a, b, from, to) && AgreesOutside(b, c, lower, upper) && lower <= from && to <= upper
    ensures AgreesOutside(a, c, lower, upper)
  {
  }

  lemma ShortImage(rest: seq<Byte>, length: nat, received: nat)
    requires received < length
    requires received > 0 ==> TRANSFER_BUFFER <= received <= |rest| && IMAGE_MAGIC <= rest[..received]
    requires |rest| < received + Min(TRANSFER_BUFFER, length - received)
    ensures ImageVerdict(rest, length) == Some(StreamFailed)
  {
  }

  lemma WrongImage(rest: seq<Byte>, length: nat)
    requires Min(TRANSFER_BUFFER, length) <= |rest| && 4 <= Min(TRANSFER_BUFFER, length)
    requires !(IMAGE_MAGIC <= rest[..Min(TRANSFER_BUFFER, length)])
    ensures ImageVerdict(rest, length) == Some(Finished(NotAnImage))
  {
  }

  lemma WholeImage(rest: seq<Byte>, length: nat)
    requires length <= |rest| && 4 <= length && IMAGE_MAGIC <= rest[..length]
    ensures ImageVerdict(rest, length) == None
  {
    assert rest[..length][..4] == rest[..4];
  }

  /** Fills the buffer with erased bytes and then with the next bytes of the stream. */
  method NextChunk(stream: Stream, buffer: array<Byte>, count: nat) returns (ok: bool)
    requires stream.Valid() && count <= buffer.Length == TRANSFER_BUFFER
    modifies stream`position, buffer
    ensures stream.Valid() && old(stream.position) <= stream.position <= old(stream.position) + count
    ensures ok ==> stream.position == old(stream.position) + count && Padded(count) <= TRANSFER_BUFFER
    ensures ok ==> buffer[..count] == stream.input[old(stream.position)..stream.position]
    ensures ok ==> buffer[..Padded(count)] == PaddedImage(buffer[..count])
    ensures stream.dependable ==> (ok <==> old(stream.position) + count <= |stream.input|)
  {
    forall i | 0 <= i < buffer.Length {
      buffer[i] := ERASED;
    }
    ok := ReadExact(stream, buffer, count);
    BufferIsPadded(buffer[..], count);
  }

  /** Between chunks, everything delivered so far has been hashed. */
  ghost predicate Hashed(stream: Stream, start: nat, length: nat, received: nat, hashed: seq<Byte>)
    reads stream
  {
    received <= length && (received == length || received % TRANSFER_BUFFER == 0) &&
    stream.Valid() && stream.position == start + received && hashed == stream.input[start..stream.position] &&
    (received > 0 ==> IMAGE_MAGIC <= hashed)
  }

  /** Between chunks, everything hashed so far is staged, if the flash stores what it is told. */
  ghost predicate Staged(flash: Flash, image: seq<Byte>)
    reads flash, flash.cells
  {
    |image| <= MAX_IMAGE && ProgrammedTo(flash, STAGED_OFFSET + Padded(|image|)) &&
    (flash.faithful ==> flash.cells[STAGED_OFFSET..STAGED_OFFSET + Padded(|image|)] == PaddedImage(image))
  }

  /** Reads one chunk and, if it is the first, checks how it begins. */
  method ReceiveChunk(stream: Stream, buffer: array<Byte>, ghost start: nat, length: nat,
                      received: nat, ghost hashed: seq<Byte>)
    returns (stop: Option<Outcome>, chunk: seq<Byte>)
    requires Hashed(stream, start, length, received, hashed) && received < length && 4 <= length
    requires buffer.Length == TRANSFER_BUFFER
    modifies stream, buffer
    ensures stop.None? ==> Hashed(stream, start, length, received + |chunk|, hashed + chunk) && chunk != []
    ensures stop.None? ==> Padded(|chunk|) <= TRANSFER_BUFFER && buffer[..Padded(|chunk|)] == PaddedImage(chunk)
    ensures stream.Valid() && old(stream.position) <= stream.position <= start + length
    ensures stop.None? ==> |chunk| == Min(TRANSFER_BUFFER, length - received) && stream.sent == old(stream.sent)
    ensures stop.Some? ==> stop.value in {StreamFailed, Finished(NotAnImage)}
    ensures stop == Some(Finished(NotAnImage)) ==> stream.sent == old(stream.sent) + [NotAnImage]
    ensures stream.dependable && stop.Some? ==> stop == ImageVerdict(stream.input[start..], length)
  {
    hide Padded, PaddedImage, ImageVerdict;
    ghost var rest := stream.input[start..];
    assert hashed == rest[..received];
    var count := Min(buffer.Length, length - received);
    var ok := NextChunk(stream, buffer, count);
    if !ok {
      if stream.dependable {
        ShortImage(rest, length, received);
      }
      return Some(StreamFailed), [];
    }
    chunk := buffer[..count];
    if received == 0 && !(IMAGE_MAGIC <= chunk) {
      assert chunk == rest[..count];
      WrongImage(rest, length);
      var r := Conclude(stream, NotAnImage);
      return Some(r), chunk;
    }
    return None, chunk;
  }

  /** Programs one chunk behind the whole chunks already staged. */
  method StageImageChunk(flash: Flash, ghost image: seq<Byte>, received: nat, chunk: seq<Byte>, data: seq<Byte>)
    returns (ok: bool)
    requires Staged(flash, image) && received == |image| && received % TRANSFER_BUFFER == 0
    requires data == PaddedImage(chunk) && |image + chunk| <= MAX_IMAGE
    modifies flash, flash.cells
    ensures ok ==> Staged(flash, image + chunk)
    ensures ProgrammedTo(flash, SWAP_INFO) && flash.erasures == old(flash.erasures)
    ensures AgreesOutside(flash.cells[..], old(flash.cells[..]), STAGED_OFFSET, SWAP_INFO)
    ensures flash.dependable ==> ok
  {
    hide Padded, PaddedImage, Ascending, BlankFrom;
    PaddingComesLast(image, chunk, data);
    PaddedBound(image + chunk);
    ok := StageChunk(flash, STAGED_OFFSET + received, data);
    ProgrammedFurther(flash, STAGED_OFFSET + received + |data|, SWAP_INFO);
  }

  /** Receives the image in chunks; stops early with an outcome, or returns everything that was hashed. */
  method ReceiveImage(stream: Stream, flash: Flash, length: nat)
    returns (stop: Option<Outcome>, hashed: seq<Byte>)
    requires 0x200 <= length <= MAX_IMAGE && stream.Valid() && ProgrammedTo(flash, STAGED_OFFSET)
    modifies stream, flash, flash.cells
    ensures stream.Valid() && old(stream.position) <= stream.position <= old(stream.position) + length
    ensures ProgrammedTo(flash, SWAP_INFO) && flash.erasures == old(flash.erasures)
    ensures AgreesOutside(flash.cells[..], old(flash.cells[..]), STAGED_OFFSET, SWAP_INFO)
    ensures stop.None? ==> Hashed(stream, old(stream.position), length, length, hashed) && Staged(flash, hashed)
    ensures stop.None? ==> stream.sent == old(stream.sent) + Milestones(length, length)
    ensures stop.Some? ==> stop.value in {StreamFailed, Finished(NotAnImage), Finished(WriteFailed)}
    ensures stop.Some? && stop.value.Finished? ==>
              stream.sent != [] && stream.sent[|stream.sent| - 1] == stop.value.reply
    ensures stream.dependable && flash.dependable ==>
              stop == ImageVerdict(stream.input[old(stream.position)..], length)
  {
    hide Padded, PaddedImage, ImageVerdict, Ascending, BlankFrom, ProgrammedTo, Milestones;
    hashed := [];
    var received := 0;
    var nextProgress := PROGRESS_INTERVAL;
    var buffer := new Byte[TRANSFER_BUFFER](_ => ERASED);
    ghost var start := stream.position;
    NothingStaged(flash);
    assert Milestones(length, 0) == [] by { NothingReported(length); }
    while received < length
      invariant Hashed(stream, start, length, received, hashed) && Staged(flash, hashed)
      invariant ProgrammedTo(flash, SWAP_INFO) && flash.erasures == old(flash.erasures)
      invariant AgreesOutside(flash.cells[..], old(flash.cells[..]), STAGED_OFFSET, SWAP_INFO)
      invariant buffer.Length == TRANSFER_BUFFER && buffer != flash.cells
      invariant stream.sent == old(stream.sent) + Milestones(length, received)
      invariant received < length ==> nextProgress == (received / PROGRESS_INTERVAL + 1) * PROGRESS_INTERVAL
    {
      ghost var contents := flash.cells[..];
      var chunk;
      stop, chunk := ReceiveChunk(stream, buffer, start, length, received, hashed);
      if stop.Some? {
        return;
      }
      var ok := StageImageChunk(flash, hashed, received, chunk, buffer[..Padded(|chunk|)]);
      AgreesLonger(flash.cells[..], contents, old(flash.cells[..]), STAGED_OFFSET, SWAP_INFO, STAGED_OFFSET, SWAP_INFO);
      if !ok {
        var r := Conclude(stream, WriteFailed);
        return Some(r), hashed;
      }
      MilestonesGrow(length, received, |chunk|);
      received, hashed := received + |chunk|, hashed + chunk;
      if received >= nextProgress || received == length {
        ok := stream.Send(Progress(received, length));
        if !ok {
          return Some(StreamFailed), hashed;
        }
        nextProgress := received + PROGRESS_INTERVAL;
      }
    }
    assert hashed == stream.input[start..][..length];
    WholeImage(stream.input[start..], length);
    return None, hashed;
  }

  lemma PaddedBound(image: seq<Byte>)
    requires |image| <= MAX_IMAGE
    ensures Padded(|image|) <= MAX_IMAGE
  {
  }

  lemma NothingReported(length: nat)
    requires length > 0
    ensures Milestones(length, 0) == []
  {
  }

  lemma NothingStaged(flash: Flash)
    requires ProgrammedTo(flash, STAGED_OFFSET)
    ensures Staged(flash, []) && ProgrammedTo(flash, SWAP_INFO)
    ensures AgreesOutside(flash.cells[..], flash.cells[..], STAGED_OFFSET, SWAP_INFO)
  {
    PaddingComesLast([], [], PaddedImage([]));
    ProgrammedFurther(flash, STAGED_OFFSET, SWAP_INFO);
  }

  /** Reads the staged image back in the same chunks. */
  method ReadBack(flash: Flash, length: nat) returns (r: Option<seq<Byte>>)
    requires flash.Valid() && length <= MAX_IMAGE
    ensures r.Some? ==> r.value == flash.cells[STAGED_OFFSET..STAGED_OFFSET + length]
    ensures flash.dependable ==> r.Some?
  {
    var checked := 0;
    var contents: seq<Byte> := [];
    while checked < length
      invariant checked <= length && contents == flash.cells[STAGED_OFFSET..STAGED_OFFSET + checked]
    {
      var count := Min(TRANSFER_BUFFER, length - checked);
      var piece := flash.Read(STAGED_OFFSET + checked, count);
      if piece.None? {
        return None;
      }
      contents := contents + piece.value;
      checked := checked + count;
    }
    return Some(contents);
  }

  /** Contents met while activating: no marker yet, or the marker over an untouched image and swap information. */
  ghost predicate Activating(contents: seq<Byte>, before: seq<Byte>, faithful: bool) {
    BlankFrom(contents, MAGIC) ||
    (|contents| == |before| == FLASH_SIZE && contents[..SWAP_INFO] == before[..SWAP_INFO] &&
     (faithful ==> contents[SWAP_INFO..SWAP_INFO + WORD] == FlagBlock(SWAP_TYPE_TEST)))
  }

  /** Programs the swap information and then, last of all, the marker. */
  method Activate(flash: Flash) returns (ok: bool)
    requires ProgrammedTo(flash, SWAP_INFO)
    modifies flash, flash.cells
    ensures flash.Valid() && flash.erasures == old(flash.erasures) && Ascending(flash.operations, SECONDARY_END)
    ensures AgreesOutside(flash.cells[..], old(flash.cells[..]), SWAP_INFO, SECONDARY_END)
    ensures forall k :: 0 <= k < |flash.states| ==> Activating(flash.states[k], old(flash.cells[..]), flash.faithful)
    ensures ok && flash.faithful ==> flash.cells[SWAP_INFO..SWAP_INFO + WORD] == FlagBlock(SWAP_TYPE_TEST)
    ensures ok && flash.faithful ==> flash.cells[MAGIC..SECONDARY_END] == MagicBlock()
    ensures ok ==> forall i :: SWAP_INFO + WORD <= i < MAGIC ==> flash.cells[i] == ERASED
    ensures flash.dependable ==> ok
  {
    hide Ascending, BlankFrom;
    ok := StageChunk(flash, SWAP_INFO, FlagBlock(SWAP_TYPE_TEST));
    ProgrammedFurther(flash, SWAP_INFO + WORD, MAGIC);
    AscendingFurther(flash.operations, MAGIC, SECONDARY_END);
    if ok {
      ghost var before, states, operations := flash.cells[..], flash.states, flash.operations;
      ghost var count;
      assert flash.faithful ==> before[SWAP_INFO..SWAP_INFO + WORD] == FlagBlock(SWAP_TYPE_TEST) by {
        ghost var staged := before[STAGED_OFFSET..SWAP_INFO + WORD];
        assert flash.faithful ==> staged[SWAP_INFO - STAGED_OFFSET..] == FlagBlock(SWAP_TYPE_TEST);
      }
      BlankWord(before);
      ok, count := flash.Write(MAGIC, MagicBlock());
      AscendingGrows(operations, MAGIC, MagicBlock(), count);
      assert old(flash.cells[..SWAP_INFO]) == before[..SWAP_INFO];
      forall k | 0 <= k < |flash.states|
        ensures Activating(flash.states[k], old(flash.cells[..]), flash.faithful)
      {
        if k < |states| {
          assert flash.states[k] == states[k];
        } else {
          assert flash.states[k][..SWAP_INFO] == before[..SWAP_INFO];
          assert flash.states[k][SWAP_INFO..SWAP_INFO + WORD] == before[SWAP_INFO..SWAP_INFO + WORD];
        }
      }
      assert flash.cells[SWAP_INFO..SWAP_INFO + WORD] == before[SWAP_INFO..SWAP_INFO + WORD];
    }
  }

  lemma AscendingFurther(ops: seq<Programmed>, top: nat, further: nat)
    requires Ascending(ops, top) && top <= further
    ensures Ascending(ops, further)
  {
  }

  lemma BlankWord(contents: seq<Byte>)
    requires BlankFrom(contents, SWAP_INFO + WORD)
    ensures forall i :: SWAP_INFO + WORD <= i < MAGIC + |MagicBlock()| ==> contents[i] == ERASED
  {
  }

  // ---------------------------------------------------------------------
  // The whole procedure.

  /** Every point at which a reset can hit since the erasure completed is harmless, and no word was programmed twice. */
  ghost predicate SafeHistory(flash: Flash, upload: seq<Byte>, hash: Hash)
    reads flash, flash.cells
  {
    Ascending(flash.operations, SECONDARY_END) &&
    forall k :: 0 <= k < |flash.states| ==> CrashSafe(flash.states[k], upload, hash)
  }

  /** The secondary slot of a flash that stores what it is told, once an upload has been accepted. */
  ghost predicate Activated(contents: seq<Byte>, upload: seq<Byte>, hash: Hash)
    requires Acceptable(upload, hash) && |contents| == FLASH_SIZE
  {
    var n := HeaderOf(upload).value.imageLength;
    HeaderInRange(upload);
    PaddedBoundOf(n);
    contents[STAGED_OFFSET..STAGED_OFFSET + Padded(n)] == PaddedImage(upload[HEADER_SIZE..HEADER_SIZE + n]) &&
    (forall i :: STAGED_OFFSET + Padded(n) <= i < SWAP_INFO ==> contents[i] == ERASED) &&
    contents[SWAP_INFO..SWAP_INFO + WORD] == FlagBlock(SWAP_TYPE_TEST) &&
    (forall i :: SWAP_INFO + WORD <= i < MAGIC ==> contents[i] == ERASED) &&
    contents[MAGIC..SECONDARY_END] == MagicBlock()
  }

  lemma PaddedBoundOf(n: nat)
    requires n <= MAX_IMAGE
    ensures Padded(n) <= MAX_IMAGE
  {
  }

  lemma BlankIsSafe(flash: Flash, upload: seq<Byte>, hash: Hash)
    requires ProgrammedTo(flash, SWAP_INFO)
    ensures SafeHistory(flash, upload, hash) && BlankFrom(flash.cells[..], MAGIC)
  {
  }

  lemma StagedLeavesTheRestBlank(flash: Flash, image: seq<Byte>)
    requires Staged(flash, image)
    ensures forall i :: STAGED_OFFSET + Padded(|image|) <= i < SWAP_INFO ==> flash.cells[i] == ERASED
  {
    var contents := flash.cells[..];
    assert forall i :: 0 <= i < FLASH_SIZE ==> contents[i] == flash.cells[i];
  }

  lemma StagedIsImage(flash: Flash, image: seq<Byte>)
    requires Staged(flash, image) && flash.faithful
    ensures flash.cells[STAGED_OFFSET..STAGED_OFFSET + |image|] == image
  {
    PaddedBound(image);
    assert flash.cells[STAGED_OFFSET..STAGED_OFFSET + Padded(|image|)][..|image|] == image;
  }

  lemma ActivatingIsSafe(contents: seq<Byte>, before: seq<Byte>, faithful: bool, upload: seq<Byte>, hash: Hash)
    requires Activating(contents, before, faithful)
    requires Acceptable(upload, hash) && StagedDigestMatches(before, upload, hash)
    ensures CrashSafe(contents, upload, hash)
  {
    if !BlankFrom(contents, MAGIC) {
      var n := HeaderOf(upload).value.imageLength;
      assert contents[STAGED_OFFSET..STAGED_OFFSET + n] == contents[..SWAP_INFO][STAGED_OFFSET..STAGED_OFFSET + n];
      assert before[STAGED_OFFSET..STAGED_OFFSET + n] == before[..SWAP_INFO][STAGED_OFFSET..STAGED_OFFSET + n];
    }
  }

  lemma StagedRegionUntouched(contents: seq<Byte>, before: seq<Byte>, n: nat)
    requires |contents| == FLASH_SIZE && AgreesOutside(contents, before, SWAP_INFO, SECONDARY_END) && n <= MAX_IMAGE
    ensures contents[STAGED_OFFSET..STAGED_OFFSET + n] == before[STAGED_OFFSET..STAGED_OFFSET + n]
  {
  }

  /** Activates an image whose digest matched twice. */
  method ActivateVerified(flash: Flash, ghost upload: seq<Byte>, ghost image: seq<Byte>, ghost hash: Hash)
    returns (ok: bool)
    requires ProgrammedTo(flash, SWAP_INFO) && Staged(flash, image)
    requires Acceptable(upload, hash) && StagedDigestMatches(flash.cells[..], upload, hash)
    requires image == upload[HEADER_SIZE..HEADER_SIZE + HeaderOf(upload).value.imageLength]
    modifies flash, flash.cells
    ensures flash.Valid() && flash.erasures == old(flash.erasures) && SafeHistory(flash, upload, hash)
    ensures AgreesOutside(flash.cells[..], old(flash.cells[..]), STAGED_OFFSET, SECONDARY_END)
    ensures StagedDigestMatches(flash.cells[..], upload, hash)
    ensures ok && flash.faithful ==> Activated(flash.cells[..], upload, hash)
    ensures flash.dependable ==> ok
  {
    hide Padded, PaddedImage, Activating, CrashSafe, Acceptable, Ascending, BlankFrom, HeaderOf;
    ghost var before := flash.cells[..];
    ghost var n := HeaderOf(upload).value.imageLength;
    StagedLeavesTheRestBlank(flash, image);
    ok := Activate(flash);
    forall k | 0 <= k < |flash.states|
      ensures CrashSafe(flash.states[k], upload, hash)
    {
      ActivatingIsSafe(flash.states[k], before, flash.faithful, upload, hash);
    }
    HeaderInRange(upload);
    PaddedBoundOf(n);
    AcceptableLength(upload, hash);
    StagedRegionUntouched(flash.cells[..], before, n);
    StagedRegionUntouched(flash.cells[..], before, Padded(n));
  }

  lemma AcceptableLength(upload: seq<Byte>, hash: Hash)
    requires Acceptable(upload, hash)
    ensures HeaderOf(upload).Some? && |upload| >= HEADER_SIZE + HeaderOf(upload).value.imageLength
  {
  }

  lemma VerdictFromHeader(upload: seq<Byte>, hash: Hash)
    ensures |upload| < HEADER_SIZE ==> Verdict(upload, hash) == StreamFailed
    ensures |upload| >= HEADER_SIZE ==>
              match Decode(upload[..HEADER_SIZE])
              case Ok(h) => HeaderOf(upload) == Some(h)
              case Err(_) => Verdict(upload, hash) == Finished(InvalidHeader)
  {
    hide Decode;
  }

  lemma VerdictFromImage(upload: seq<Byte>, hash: Hash)
    requires HeaderOf(upload).Some?
    ensures var n := HeaderOf(upload).value.imageLength;
            var stop := ImageVerdict(upload[HEADER_SIZE..], n);
            match stop
            case Some(outcome) => Verdict(upload, hash) == outcome
            case None =>
              |upload| >= HEADER_SIZE + n &&
              Verdict(upload, hash) == Finished(
                if hash(upload[HEADER_SIZE..HEADER_SIZE + n]) == HeaderOf(upload).value.sha256
                then Rebooting else TransferDigest)
  {
    var n := HeaderOf(upload).value.imageLength;
    if |upload| >= HEADER_SIZE + n {
      assert upload[HEADER_SIZE..][..n] == upload[HEADER_SIZE..HEADER_SIZE + n];
    }
  }

  /** What is done once the whole image has been received: two digests, then activation. */
  method Verify(stream: Stream, flash: Flash, header: Header, image: seq<Byte>, ghost upload: seq<Byte>, hash: Hash)
    returns (r: Outcome)
    requires ProgrammedTo(flash, SWAP_INFO) && Staged(flash, image) && IMAGE_MAGIC <= image
    requires HeaderOf(upload) == Some(header) && |upload| >= HEADER_SIZE + header.imageLength
    requires image == upload[HEADER_SIZE..HEADER_SIZE + header.imageLength]
    modifies stream`sent, flash, flash.cells
    ensures flash.Valid() && flash.erasures == old(flash.erasures)
    ensures AgreesOutside(flash.cells[..], old(flash.cells[..]), STAGED_OFFSET, SECONDARY_END)
    ensures SafeHistory(flash, upload, hash)
    ensures r == Finished(Rebooting) ==>
              Acceptable(upload, hash) && StagedDigestMatches(flash.cells[..], upload, hash) &&
              (flash.faithful ==> Activated(flash.cells[..], upload, hash))
    ensures flash.faithful ==> r != Finished(ReadBackDigest)
    ensures r.Finished? ==> stream.sent == old(stream.sent) + [r.reply]
    ensures stream.dependable && flash.dependable && flash.faithful ==>
              r == if hash(image) == header.sha256 then Finished(Rebooting) else Finished(TransferDigest)
  {
    hide Padded, PaddedImage, CrashSafe, Ascending, BlankFrom, HeaderOf, Staged, Activated;
    HeaderInRange(upload);
    BlankIsSafe(flash, upload, hash);
    if hash(image) != header.sha256 {
      r := Conclude(stream, TransferDigest);
      return;
    }
    var readBack := ReadBack(flash, header.imageLength);
    if readBack.None? {
      r := Conclude(stream, ReadBackFailed);
      return;
    }
    if flash.faithful {
      StagedIsImage(flash, image);
    }
    if hash(readBack.value) != header.sha256 {
      r := Conclude(stream, ReadBackDigest);
      return;
    }
    var ok := ActivateVerified(flash, upload, image, hash);
    r := Conclude(stream, if ok then Rebooting else MarkerFailed);
  }

  /** Everything after the slot has been erased. */
  method ReceiveErased(stream: Stream, flash: Flash, header: Header, ghost upload: seq<Byte>, hash: Hash)
    returns (r: Outcome)
    requires stream.Valid() && ProgrammedTo(flash, STAGED_OFFSET) && HeaderOf(upload) == Some(header)
    requires stream.position >= HEADER_SIZE && upload == stream.input[stream.position - HEADER_SIZE..]
    modifies stream, flash, flash.cells
    ensures stream.Valid() && flash.Valid() && flash.erasures == old(flash.erasures)
    ensures old(stream.position) <= stream.position <= old(stream.position) + header.imageLength
    ensures AgreesOutside(flash.cells[..], old(flash.cells[..]), STAGED_OFFSET, SECONDARY_END)
    ensures SafeHistory(flash, upload, hash)
    ensures BlankFrom(flash.cells[..], MAGIC) || stream.position == old(stream.position) + header.imageLength
    ensures r == Finished(Rebooting) ==>
              Acceptable(upload, hash) && StagedDigestMatches(flash.cells[..], upload, hash) &&
              stream.position == old(stream.position) + header.imageLength &&
              (flash.faithful ==> Activated(flash.cells[..], upload, hash))
    ensures flash.faithful ==> r != Finished(ReadBackDigest)
    ensures r.Finished? ==> stream.sent != [] && stream.sent[|stream.sent| - 1] == r.reply
    ensures r == Finished(Rebooting) ==>
              var n := header.imageLength;
              stream.sent == old(stream.sent) + [Ready] + Milestones(n, n) + [Rebooting]
    ensures stream.dependable && flash.dependable && flash.faithful ==> r == Verdict(upload, hash)
  {
    hide Padded, PaddedImage, CrashSafe, Ascending, BlankFrom, HeaderOf, Activated, ImageVerdict, Verdict, Acceptable;
    hide Milestones;
    HeaderInRange(upload);
    VerdictFromImage(upload, hash);
    ghost var before := flash.cells[..];
    ProgrammedFurther(flash, STAGED_OFFSET, SWAP_INFO);
    BlankIsSafe(flash, upload, hash);
    var ok := stream.Send(Ready);
    if !ok {
      return StreamFailed;
    }
    assert stream.input[stream.position..] == upload[HEADER_SIZE..];
    var stop, image := ReceiveImage(stream, flash, header.imageLength);
    BlankIsSafe(flash, upload, hash);
    if stop.Some? {
      return stop.value;
    }
    assert image == upload[HEADER_SIZE..HEADER_SIZE + header.imageLength];
    ghost var received := flash.cells[..];
    r := Verify(stream, flash, header, image, upload, hash);
    AgreesLonger(received, before, before, STAGED_OFFSET, SWAP_INFO, STAGED_OFFSET, SECONDARY_END);
    AgreesLonger(flash.cells[..], received, before, STAGED_OFFSET, SECONDARY_END, STAGED_OFFSET, SECONDARY_END);
  }

  /** Receive, verify, stage and activate one signed image. */
  method Receive(stream: Stream, flash: Flash, hash: Hash) returns (r: Outcome)
    requires stream.Valid() && flash.Valid()
    modifies stream, flash, flash.cells
    ensures stream.Valid() && flash.Valid()
    ensures AgreesOutside(flash.cells[..], old(flash.cells[..]), SECONDARY_OFFSET, SECONDARY_END)
    ensures old(flash.erasures) <= flash.erasures <= old(flash.erasures) + 1
    ensures flash.erasures == old(flash.erasures) ==>
              flash.operations == old(flash.operations) &&
              r in {StreamFailed, Finished(InvalidHeader), Finished(EraseFailed)}
    ensures flash.erasures > old(flash.erasures) ==> forall i :: 0x8_0000 <= i < 0xA_0000 ==> flash.cells[i] == 0xFF
    ensures flash.erasures > old(flash.erasures) ==>
              SafeHistory(flash, stream.input[old(stream.position)..], hash) &&
              (BlankFrom(flash.cells[..], MAGIC) ||
               stream.position == old(stream.position) + HEADER_SIZE +
                 HeaderOf(stream.input[old(stream.position)..]).value.imageLength)
    ensures r == Finished(Rebooting) ==>
              var upload := stream.input[old(stream.position)..];
              Acceptable(upload, hash) && StagedDigestMatches(flash.cells[..], upload, hash) &&
              stream.position == old(stream.position) + HEADER_SIZE + HeaderOf(upload).value.imageLength &&
              (flash.faithful ==> Activated(flash.cells[..], upload, hash))
    ensures r.Finished? ==> stream.sent != [] && stream.sent[|stream.sent| - 1] == r.reply
    ensures r == Finished(Rebooting) ==>
              var n := HeaderOf(stream.input[old(stream.position)..]).value.imageLength;
              stream.sent == old(stream.sent) + [Erasing, Ready] + Milestones(n, n) + [Rebooting]
    ensures flash.faithful ==> r != Finished(ReadBackDigest)
    ensures stream.dependable && flash.dependable && flash.faithful ==>
              r == Verdict(stream.input[old(stream.position)..], hash)
  {
    hide Padded, PaddedImage, Activated, SafeHistory, Acceptable, CrashSafe, StagedDigestMatches, Milestones;
    hide HeaderOf, Verdict, Decode;
    var encoded := new Byte[HEADER_SIZE](_ => 0);
    ghost var upload := stream.input[stream.position..];
    ghost var before := flash.cells[..];
    VerdictFromHeader(upload, hash);
    var ok := ReadExact(stream, encoded, HEADER_SIZE);
    if !ok {
      return StreamFailed;
    }
    assert encoded[..] == encoded[..HEADER_SIZE];
    assert upload[..HEADER_SIZE] == stream.input[old(stream.position)..old(stream.position) + HEADER_SIZE];
    var decoded := Decode(encoded[..]);
    if decoded.Err? {
      r := Conclude(stream, InvalidHeader);
      return;
    }
    ok := stream.Send(Erasing);
    if !ok {
      return StreamFailed;
    }
    ok := flash.Erase(SECONDARY_OFFSET, SECONDARY_END);
    if !ok {
      r := Conclude(stream, EraseFailed);
      return;
    }
    ghost var erased := flash.cells[..];
    r := ReceiveErased(stream, flash, decoded.value, upload, hash);
    AgreesLonger(flash.cells[..], erased, before, STAGED_OFFSET, SECONDARY_END, SECONDARY_OFFSET, SECONDARY_END);
  }

  // ---------------------------------------------------------------------
  // Confirmation of a trial boot.

  const PRIMARY_MAGIC: nat := MagicOffset(PRIMARY_OFFSET, PRIMARY_SIZE) + 16
  const IMAGE_OK: nat := ImageOkOffset(PRIMARY_OFFSET, PRIMARY_SIZE)

  /** The running image is on trial and has not been confirmed. */
  predicate Unconfirmed(contents: seq<Byte>)
    requires |contents| == FLASH_SIZE
  {
    contents[PRIMARY_MAGIC..PRIMARY_MAGIC + 16] == TRAILER_MAGIC && contents[IMAGE_OK] != FLAG_SET
  }

  /**
   * Programs one word, and only for an unconfirmed trial: an ordinary boot and a second call change nothing.
   */
  method ConfirmRunningTrial(flash: Flash)
    requires flash.Valid()
    modifies flash, flash.cells
    ensures flash.Valid() && AgreesOutside(flash.cells[..], old(flash.cells[..]), IMAGE_OK, IMAGE_OK + WORD)
    ensures !Unconfirmed(old(flash.cells[..])) ==>
              flash.cells[..] == old(flash.cells[..]) && flash.operations == old(flash.operations)
    ensures flash.operations == old(flash.operations) ||
            flash.operations == old(flash.operations) + [Programmed(IMAGE_OK, FlagBlock(FLAG_SET))]
    ensures flash.dependable && Unconfirmed(old(flash.cells[..])) ==>
              flash.operations == old(flash.operations) + [Programmed(IMAGE_OK, FlagBlock(FLAG_SET))]
    ensures flash.dependable && flash.faithful && Unconfirmed(old(flash.cells[..])) &&
            (forall i :: IMAGE_OK <= i < IMAGE_OK + WORD ==> old(flash.cells[i]) == ERASED) ==>
              flash.cells[IMAGE_OK..IMAGE_OK + WORD] == FlagBlock(FLAG_SET) && !Unconfirmed(flash.cells[..])
  {
    ghost var before := flash.cells[..];
    assert before[PRIMARY_MAGIC..PRIMARY_MAGIC + 16] == flash.cells[PRIMARY_MAGIC..PRIMARY_MAGIC + 16];
    var magic := flash.Read(PRIMARY_MAGIC, 16);
    if magic != Some(TRAILER_MAGIC) {
      return;
    }
    var current := flash.Read(IMAGE_OK, 1);
    if current.Some? && current.value[0] != FLAG_SET {
      ghost var block := FlagBlock(FLAG_SET);
      assert block[0 * WORD..0 * WORD + WORD] == block;
      var _, _ := flash.Write(IMAGE_OK, FlagBlock(FLAG_SET));
    }
  }

  // ---------------------------------------------------------------------
  // The trailer, as the bootloader reads it.

  /**
   * Once an upload has been accepted, the last 128 bytes of the slot ask for one test swap: the swap type first,
   * the magic last, and everything between erased. The image stands at the address the bootloader starts it from.
   */
  lemma TrailerAsksForATestSwap(contents: seq<Byte>, upload: seq<Byte>, hash: Hash)
    requires Acceptable(upload, hash) && |contents| == FLASH_SIZE && Activated(contents, upload, hash)
    ensures contents[0x10_0000 - 128] == 2 && contents[0x10_0000 - 16..0x10_0000] == TRAILER_MAGIC
    ensures forall i :: 0x10_0000 - 127 <= i < 0x10_0000 - 16 ==> contents[i] == 0xFF
    ensures var n := HeaderOf(upload).value.imageLength;
            n <= MAX_IMAGE && |upload| >= 44 + n && contents[0xA_0000..0xA_0000 + n] == upload[44..44 + n] &&
            contents[0xA_0000..0xA_0000 + 4] == [0x3D, 0xB8, 0xF3, 0x96] &&
            forall i :: 0xA_0000 + n <= i < 0x10_0000 - 128 ==> contents[i] == 0xFF
  {
    hide HeaderOf, Padded;
    HeaderInRange(upload);
    var n := HeaderOf(upload).value.imageLength;
    PaddedBoundOf(n);
    var magic, swap := contents[MAGIC..SECONDARY_END], contents[SWAP_INFO..SWAP_INFO + WORD];
    assert magic[16..] == TRAILER_MAGIC && contents[SECONDARY_END - 16..SECONDARY_END] == magic[16..];
    assert forall i :: 0 <= i < 16 ==> contents[MAGIC + i] == magic[i];
    assert forall i :: 0 <= i < WORD ==> contents[SWAP_INFO + i] == swap[i];
    var staged, image := contents[STAGED_OFFSET..STAGED_OFFSET + Padded(n)], upload[HEADER_SIZE..HEADER_SIZE + n];
    assert contents[STAGED_OFFSET..STAGED_OFFSET + n] == staged[..n] == image;
    assert contents[STAGED_OFFSET..STAGED_OFFSET + 4] == contents[STAGED_OFFSET..STAGED_OFFSET + n][..4];
  }

  /** The same trailer at the end of the primary slot is what confirming looks for: a trial that is not confirmed. */
  lemma SameTrailerIsAnUnconfirmedTrial(contents: seq<Byte>, swapped: seq<Byte>, upload: seq<Byte>, hash: Hash)
    requires Acceptable(upload, hash) && |contents| == FLASH_SIZE && Activated(contents, upload, hash)
    requires |swapped| == FLASH_SIZE && swapped[0x8_0000 - 128..0x8_0000] == contents[0x10_0000 - 128..0x10_0000]
    ensures Unconfirmed(swapped)
    ensures forall i :: IMAGE_OK <= i < IMAGE_OK + WORD ==> swapped[i] == ERASED
  {
    TrailerAsksForATestSwap(contents, upload, hash);
    hide Activated;
    var trailer := swapped[0x8_0000 - 128..0x8_0000];
    assert trailer[112..] == contents[0x10_0000 - 16..0x10_0000];
    assert swapped[PRIMARY_MAGIC..PRIMARY_MAGIC + 16] == trailer[112..];
    assert forall i :: 0 <= i < 128 ==> swapped[0x8_0000 - 128 + i] == trailer[i];
    assert forall i :: 0 <= i < 128 ==> contents[0x10_0000 - 128 + i] == trailer[i];
  }

  /** A trial is told by the last 16 bytes of the primary slot and by one flag byte, which confirming sets to 1. */
  lemma ConfirmationStandsInTheTrailer(contents: seq<Byte>)
    requires |contents| == FLASH_SIZE
    ensures Unconfirmed(contents) <==>
            contents[0x8_0000 - 16..0x8_0000] == TRAILER_MAGIC && contents[0x8_0000 - 64] != 1
    ensures IMAGE_OK == 0x8_0000 - 64 && FlagBlock(FLAG_SET) == [1] + seq(31, _ => 0xFF)
  {
  }
}
