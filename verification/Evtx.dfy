/** EVTX structural validation: chunks, event records and file headers, and what the checks are worth. */
module Evtx {
  import opened Bytes
  import opened Crc32

  const CHUNK_MAGIC: seq<byte> := [0x45, 0x6c, 0x66, 0x43, 0x68, 0x6e, 0x6b, 0x00]
  const FILE_MAGIC: seq<byte> := [0x45, 0x6c, 0x66, 0x46, 0x69, 0x6c, 0x65, 0x00]
  const RECORD_MAGIC: seq<byte> := [0x2a, 0x2a, 0x00, 0x00]

  const CHUNK_SIZE: nat := 0x1_0000
  const CHUNK_HEADER_SIZE: nat := 512
  const FILE_HEADER_SIZE: nat := 128
  const RECORD_HEADER_SIZE: nat := 24
  const MIN_RECORD: nat := RECORD_HEADER_SIZE + 4

  datatype Reason = HeaderCrc | RecordsCrc | Incoherent | Misaligned | HeadTail | FileTime | NotIncreasing

  datatype Rejection =
    | NotThisFormat
    | Truncated(needed: nat, available: nat)
    | LengthOutOfBounds(value: nat, max: nat)
    | FailedValidation(reason: Reason)

  datatype Config = Config(minFileTime: u64, maxFileTime: u64, maxRecordSize: u32)

  predicate StartsWith(data: seq<byte>, magic: seq<byte>) {
    |magic| <= |data| && data[..|magic|] == magic
  }

  // ----- chunks

  /** The hasher fed the two covered stretches of a chunk header. */
  function ChunkHeaderCrc(data: seq<byte>): u32
    requires |data| >= CHUNK_HEADER_SIZE
  {
    Finalize(Update(Update(INIT, data[0..120]), data[128..CHUNK_HEADER_SIZE]))
  }

  function FreeSpace(data: seq<byte>): nat
    requires |data| >= CHUNK_HEADER_SIZE
  {
    Field(data, 48, 4)
  }

  function ValidateChunk(data: seq<byte>): Result<nat, Rejection> {
    if |data| < CHUNK_HEADER_SIZE then Err(Truncated(CHUNK_HEADER_SIZE, |data|)) else
    if data[..8] != CHUNK_MAGIC then Err(NotThisFormat) else
    var freeSpace := FreeSpace(data);
    if !(CHUNK_HEADER_SIZE <= freeSpace <= CHUNK_SIZE) then Err(LengthOutOfBounds(freeSpace, CHUNK_SIZE)) else
    if ChunkHeaderCrc(data) != Field(data, 124, 4) then Err(FailedValidation(HeaderCrc)) else
    if |data| < freeSpace then Err(Truncated(freeSpace, |data|)) else
    if Crc(data[CHUNK_HEADER_SIZE..freeSpace]) != Field(data, 52, 4) then Err(FailedValidation(RecordsCrc)) else
    if Field(data, 8, 8) > Field(data, 16, 8) || Field(data, 24, 8) > Field(data, 32, 8)
    then Err(FailedValidation(Incoherent))
    else Ok(Min(CHUNK_SIZE, |data|))
  }

  // ----- records

  datatype Frame = Frame(size: nat, recordId: nat)

  /** A complete record sits at the head of `next`: what the neighbour check looks for. */
  predicate WellFormed(next: seq<byte>) {
    && |next| >= MIN_RECORD
    && next[..4] == RECORD_MAGIC
    && var size := Field(next, 4, 4);
       && size >= MIN_RECORD
       && size % 8 == 0
       && |next| >= size
       && Field(next, size - 4, 4) == size
  }

  function ValidateRecord(data: seq<byte>, config: Config): Result<Frame, Rejection> {
    if |data| < MIN_RECORD then Err(Truncated(MIN_RECORD, |data|)) else
    if data[..4] != RECORD_MAGIC then Err(NotThisFormat) else
    var size := Field(data, 4, 4);
    if size < MIN_RECORD || size > config.maxRecordSize then Err(LengthOutOfBounds(size, config.maxRecordSize)) else
    if size % 8 != 0 then Err(FailedValidation(Misaligned)) else
    if |data| < size then Err(Truncated(size, |data|)) else
    if Field(data, size - 4, 4) != size then Err(FailedValidation(HeadTail)) else
    var recordId := Field(data, 8, 8);
    var fileTime := Field(data, 16, 8);
    if fileTime < config.minFileTime || fileTime > config.maxFileTime then Err(FailedValidation(FileTime)) else
    if Blocked(data[size..], recordId) then Err(FailedValidation(NotIncreasing))
    else Ok(Frame(size, recordId))
  }

  /** What follows is a complete record whose identifier is not greater. */
  predicate Blocked(next: seq<byte>, recordId: nat) {
    WellFormed(next) && Field(next, 8, 8) <= recordId
  }

  // ----- file headers

  datatype FileHeader = FileHeader(firstChunk: nat, lastChunk: nat, nextRecordId: nat, chunkCount: nat, flags: nat)

  function ValidateFileHeader(data: seq<byte>): Result<FileHeader, Rejection> {
    if |data| < FILE_HEADER_SIZE then Err(Truncated(FILE_HEADER_SIZE, |data|)) else
    if data[..8] != FILE_MAGIC then Err(NotThisFormat) else
    if Crc(data[0..120]) != Field(data, 124, 4) then Err(FailedValidation(HeaderCrc)) else
    if Field(data, 8, 8) > Field(data, 16, 8) then Err(FailedValidation(Incoherent)) else
    Ok(FileHeader(Field(data, 8, 8), Field(data, 16, 8), Field(data, 24, 8), Field(data, 42, 2), Field(data, 120, 4)))
  }

  // ----- tampering

  /** The bytes a chunk's checksums cover, as one string. */
  function Covered(data: seq<byte>): seq<byte>
    requires |data| >= CHUNK_HEADER_SIZE
  {
    data[0..120] + data[128..CHUNK_HEADER_SIZE]
  }

  lemma HeaderCrcCovers(data: seq<byte>)
    requires |data| >= CHUNK_HEADER_SIZE
    ensures ChunkHeaderCrc(data) == Crc(Covered(data))
  {
    hide Update, Finalize;
    UpdateConcat(INIT, data[0..120], data[128..CHUNK_HEADER_SIZE]);
  }

  /** Everything validation of a chunk depends on: all of it up to the free space except four bytes. */
  ghost predicate SameChecked(a: seq<byte>, b: seq<byte>) {
    |a| >= CHUNK_HEADER_SIZE && AgreeOn(a, b, 0, 120) && AgreeOn(a, b, 124, FreeSpace(a))
  }

  lemma UncheckedIgnored(data: seq<byte>, other: seq<byte>)
    requires ValidateChunk(data).Ok? && |data| == |other| && SameChecked(data, other)
    ensures ValidateChunk(other) == ValidateChunk(data)
  {
    hide Crc, Update, Finalize;
    SameField(data, other, 48, 4);
    SameField(data, other, 124, 4);
    SameField(data, other, 52, 4);
    SameField(data, other, 8, 8);
    SameField(data, other, 16, 8);
    SameField(data, other, 24, 8);
    SameField(data, other, 32, 8);
    assert data[..8] == other[..8];
    assert data[0..120] == other[0..120];
    assert data[128..CHUNK_HEADER_SIZE] == other[128..CHUNK_HEADER_SIZE];
    assert data[CHUNK_HEADER_SIZE..FreeSpace(data)] == other[CHUNK_HEADER_SIZE..FreeSpace(data)];
  }

  lemma CoveredBurst(data: seq<byte>, other: seq<byte>, p: nat, n: nat)
    requires |data| >= CHUNK_HEADER_SIZE && AgreeOutside(data, other, p, n) && n <= 4
    requires !(AgreeOn(data, other, 0, 120) && AgreeOn(data, other, 128, CHUNK_HEADER_SIZE))
    requires p + n <= 128 || p >= 128
    ensures ChunkHeaderCrc(data) != ChunkHeaderCrc(other)
  {
    hide Crc, Update, Finalize;
    HeaderCrcCovers(data);
    HeaderCrcCovers(other);
    var a, b := Covered(data), Covered(other);
    var q := if p < 128 then p else p - 8;
    assert AgreeOutside(a, b, q, n);
    if i :| 0 <= i < 120 && data[i] != other[i] {
      assert a[i] != b[i];
    } else {
      var i :| 128 <= i < CHUNK_HEADER_SIZE && data[i] != other[i];
      assert a[i - 8] != b[i - 8];
    }
    BurstChanges(a, b, q, n);
  }

  lemma RecordsBurst(data: seq<byte>, other: seq<byte>, p: nat, n: nat, end: nat)
    requires CHUNK_HEADER_SIZE <= end <= |data| && AgreeOutside(data, other, p, n) && n <= 4
    requires !AgreeOn(data, other, CHUNK_HEADER_SIZE, end)
    ensures Crc(data[CHUNK_HEADER_SIZE..end]) != Crc(other[CHUNK_HEADER_SIZE..end])
  {
    hide Crc;
    var a, b := data[CHUNK_HEADER_SIZE..end], other[CHUNK_HEADER_SIZE..end];
    var q := if p < CHUNK_HEADER_SIZE then 0 else p - CHUNK_HEADER_SIZE;
    var i :| CHUNK_HEADER_SIZE <= i < end && data[i] != other[i];
    assert a[i - CHUNK_HEADER_SIZE] != b[i - CHUNK_HEADER_SIZE];
    assert AgreeOutside(a, b, q, n);
    BurstChanges(a, b, q, n);
  }

  /** Corruption of an accepted chunk, confined to four consecutive bytes on one side of offset 128, is
      accepted if and only if it touches nothing but the four unchecked bytes [120, 124) and the space
      past the records. A single changed byte always meets the condition. */
  lemma ChunkTampered(data: seq<byte>, other: seq<byte>, p: nat, n: nat)
    requires ValidateChunk(data).Ok? && AgreeOutside(data, other, p, n) && n <= 4
    requires p + n <= 128 || p >= 128
    ensures ValidateChunk(other).Ok? <==> SameChecked(data, other)
  {
    hide Crc, Update, Finalize, ChunkHeaderCrc;
    if SameChecked(data, other) {
      UncheckedIgnored(data, other);
    } else {
      ChunkRejected(data, other, p, n);
    }
  }

  lemma ChunkRejected(data: seq<byte>, other: seq<byte>, p: nat, n: nat)
    requires ValidateChunk(data).Ok? && AgreeOutside(data, other, p, n) && n <= 4
    requires p + n <= 128 || p >= 128
    requires !SameChecked(data, other)
    ensures ValidateChunk(other).Err?
  {
    hide Crc, Update, Finalize, ChunkHeaderCrc;
    if !(AgreeOn(data, other, 0, 120) && AgreeOn(data, other, 128, CHUNK_HEADER_SIZE)) {
      CoveredBurst(data, other, p, n);
      SameField(data, other, 124, 4);
      assert AgreeOn(data, other, 124, 128);
    } else {
      SameField(data, other, 48, 4);
      SameField(data, other, 52, 4);
      SameField(data, other, 124, 4);
      SameHeaderCrc(data, other);
      if AgreeOn(data, other, 124, 128) {
        RecordsBurst(data, other, p, n, FreeSpace(data));
      }
    }
  }

  lemma SameHeaderCrc(data: seq<byte>, other: seq<byte>)
    requires |data| >= CHUNK_HEADER_SIZE && |other| >= CHUNK_HEADER_SIZE
    requires AgreeOn(data, other, 0, 120) && AgreeOn(data, other, 128, CHUNK_HEADER_SIZE)
    ensures ChunkHeaderCrc(data) == ChunkHeaderCrc(other)
  {
    hide Update, Finalize;
    assert data[0..120] == other[0..120];
    assert data[128..CHUNK_HEADER_SIZE] == other[128..CHUNK_HEADER_SIZE];
  }

  /** A file header's checksum is as strict: a change confined to four bytes of an accepted one is
      accepted if and only if it leaves the first 120 bytes and the stored checksum alone. */
  lemma FileHeaderTampered(data: seq<byte>, other: seq<byte>, p: nat, n: nat)
    requires ValidateFileHeader(data).Ok? && AgreeOutside(data, other, p, n) && n <= 4
    ensures ValidateFileHeader(other).Ok? <==> AgreeOn(data, other, 0, 120) && AgreeOn(data, other, 124, 128)
  {
    hide Crc;
    SameField(data, other, 124, 4);
    SameField(data, other, 8, 8);
    SameField(data, other, 16, 8);
    if AgreeOn(data, other, 0, 120) {
      assert data[0..120] == other[0..120];
      assert data[..8] == other[..8];
    } else {
      var a, b := data[0..120], other[0..120];
      var i :| 0 <= i < 120 && data[i] != other[i];
      assert a[i] != b[i];
      BurstChanges(a, b, p, n);
      assert AgreeOn(data, other, 124, 128);
    }
  }
}
