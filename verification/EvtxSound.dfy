/** What makes a window a sound chunk, file header or record, said from the writer's side: which bytes a
    writer would have put there. Validation accepts exactly these. */
module EvtxSound {
  import opened Bytes
  import opened Crc32
  import opened Evtx

  /** The `width` bytes at `at` are the ones a writer stores for `n`. */
  predicate Has(w: seq<byte>, at: nat, n: nat, width: nat) {
    at + width <= |w| && w[at..at + width] == ToLE(n, width)
  }

  lemma HasField(w: seq<byte>, at: nat, n: nat, width: nat)
    requires at + width <= |w| && n < Capacity(width)
    ensures Has(w, at, n, width) <==> Field(w, at, width) == n
  {
    if Has(w, at, n, width) {
      LittleEndianRoundTrip(n, width);
    }
    if Field(w, at, width) == n {
      LittleEndianStored(w[at..at + width]);
    }
  }

  // ----- chunks

  /** "ElfChnk", the end of the records, both checksums stored, and first numbers not past the last. */
  ghost predicate SoundChunk(w: seq<byte>, end: nat) {
    && 512 <= end <= 65536 && end <= |w|
    && w[..8] == [0x45, 0x6c, 0x66, 0x43, 0x68, 0x6e, 0x6b, 0x00]
    && Has(w, 48, end, 4)
    && Has(w, 52, Crc(w[512..end]), 4)
    && Has(w, 124, Crc(w[0..120] + w[128..512]), 4)
    && FromLE(w[8..16]) <= FromLE(w[16..24])
    && FromLE(w[24..32]) <= FromLE(w[32..40])
  }

  /** A chunk is accepted, at its full 64 KiB or what there is of it, exactly when it is sound. */
  lemma ChunkAccepted(w: seq<byte>)
    ensures ValidateChunk(w).Ok? <==> exists end: nat :: SoundChunk(w, end)
    ensures ValidateChunk(w).Ok? ==> ValidateChunk(w).value == if |w| < 65536 then |w| else 65536
  {
    hide Crc, Update, Finalize, Has, FromLE, ToLE;
    Capacities();
    hide Capacity;
    if |w| >= 512 {
      var end := FreeSpace(w);
      HeaderCrcCovers(w);
      HasField(w, 124, ChunkHeaderCrc(w), 4);
      FreeSpaceFits(w);
      HasField(w, 48, end, 4);
      if 512 <= end <= |w| {
        HasField(w, 52, Crc(w[512..end]), 4);
      }
      forall other: nat | SoundChunk(w, other)
        ensures other == end
      {
        HasField(w, 48, other, 4);
      }
      if ValidateChunk(w).Ok? {
        assert SoundChunk(w, end);
      }
    }
  }

  /** A window that is no sound chunk is refused for the first thing wrong with it. */
  lemma ChunkRefused(w: seq<byte>)
    ensures |w| < 512 ==> ValidateChunk(w) == Err(Truncated(512, |w|))
    ensures |w| >= 512 ==>
      var end := FromLE(w[48..52]);
      var refused := ValidateChunk(w);
      if w[..8] != [0x45, 0x6c, 0x66, 0x43, 0x68, 0x6e, 0x6b, 0x00] then refused == Err(NotThisFormat)
      else if end < 512 || end > 65536 then refused == Err(LengthOutOfBounds(end, 65536))
      else if !Has(w, 124, Crc(w[0..120] + w[128..512]), 4) then refused == Err(FailedValidation(HeaderCrc))
      else if |w| < end then refused == Err(Truncated(end, |w|))
      else if !Has(w, 52, Crc(w[512..end]), 4) then refused == Err(FailedValidation(RecordsCrc))
      else refused.Ok? || refused == Err(FailedValidation(Incoherent))
  {
    hide Crc, Update, Finalize, Has, FromLE, ToLE;
    Capacities();
    hide Capacity;
    if |w| >= 512 {
      HeaderCrcCovers(w);
      HasField(w, 124, ChunkHeaderCrc(w), 4);
      if 512 <= FreeSpace(w) <= |w| {
        HasField(w, 52, Crc(w[512..FreeSpace(w)]), 4);
      }
    }
  }

  lemma FreeSpaceFits(w: seq<byte>)
    requires |w| >= 512
    ensures FreeSpace(w) < U32_LIMIT
  {
    Widths(w[48..52]);
  }

  // ----- file headers

  /** "ElfFile", the checksum of the first 120 bytes stored, and the first chunk not past the last. */
  ghost predicate SoundFileHeader(w: seq<byte>) {
    && |w| >= 128
    && w[..8] == [0x45, 0x6c, 0x66, 0x46, 0x69, 0x6c, 0x65, 0x00]
    && Has(w, 124, Crc(w[0..120]), 4)
    && FromLE(w[8..16]) <= FromLE(w[16..24])
  }

  lemma FileHeaderAccepted(w: seq<byte>)
    ensures ValidateFileHeader(w).Ok? <==> SoundFileHeader(w)
    ensures ValidateFileHeader(w).Ok? ==>
      var h := ValidateFileHeader(w).value;
      && Has(w, 8, h.firstChunk, 8) && Has(w, 16, h.lastChunk, 8) && Has(w, 24, h.nextRecordId, 8)
      && Has(w, 42, h.chunkCount, 2) && Has(w, 120, h.flags, 4)
  {
    hide Crc, FromLE, ToLE;
    Capacities();
    hide Capacity;
    if |w| >= 128 {
      HasField(w, 124, Crc(w[0..120]), 4);
      FieldsStored(w);
    }
  }

  lemma FileHeaderRefused(w: seq<byte>)
    ensures |w| < 128 ==> ValidateFileHeader(w) == Err(Truncated(128, |w|))
    ensures |w| >= 128 ==>
      var refused := ValidateFileHeader(w);
      if w[..8] != [0x45, 0x6c, 0x66, 0x46, 0x69, 0x6c, 0x65, 0x00] then refused == Err(NotThisFormat)
      else if !Has(w, 124, Crc(w[0..120]), 4) then refused == Err(FailedValidation(HeaderCrc))
      else refused.Ok? || refused == Err(FailedValidation(Incoherent))
  {
    hide Crc, FromLE, ToLE, Has;
    Capacities();
    if |w| >= 128 {
      HasField(w, 124, Crc(w[0..120]), 4);
    }
  }

  lemma FieldsStored(w: seq<byte>)
    requires |w| >= 128
    ensures Has(w, 8, Field(w, 8, 8), 8) && Has(w, 16, Field(w, 16, 8), 8) && Has(w, 24, Field(w, 24, 8), 8)
    ensures Has(w, 42, Field(w, 42, 2), 2) && Has(w, 120, Field(w, 120, 4), 4)
  {
    hide FromLE, ToLE;
    LittleEndianStored(w[8..16]);
    LittleEndianStored(w[16..24]);
    LittleEndianStored(w[24..32]);
    LittleEndianStored(w[42..44]);
    LittleEndianStored(w[120..124]);
  }

  // ----- records

  /** The first `n` bytes are framed as a record: its magic, and its size at the head and at the tail. */
  ghost predicate Framed(w: seq<byte>, n: nat) {
    && 28 <= n <= |w| && n % 8 == 0 && n < U32_LIMIT
    && w[..4] == [0x2a, 0x2a, 0x00, 0x00]
    && Has(w, 4, n, 4) && Has(w, n - 4, n, 4)
  }

  /** A framed record within the limits that no framed record with a lower or equal identifier follows. */
  ghost predicate SoundRecord(w: seq<byte>, config: Config, n: nat) {
    && Framed(w, n) && n <= config.maxRecordSize
    && config.minFileTime <= FromLE(w[16..24]) <= config.maxFileTime
    && !exists m: nat :: Framed(w[n..], m) && FromLE(w[n..][8..16]) <= FromLE(w[8..16])
  }

  lemma FramedExactly(w: seq<byte>)
    ensures WellFormed(w) <==> exists n: nat :: Framed(w, n)
    ensures forall n: nat :: Framed(w, n) ==> Field(w, 4, 4) == n
  {
    hide FromLE, ToLE, Has;
    Capacities();
    hide Capacity;
    forall n: nat | Framed(w, n)
      ensures WellFormed(w) && Field(w, 4, 4) == n
    {
      HasField(w, 4, n, 4);
      HasField(w, n - 4, n, 4);
    }
    if WellFormed(w) {
      var n := Field(w, 4, 4);
      Widths(w[4..8]);
      HasField(w, 4, n, 4);
      HasField(w, n - 4, n, 4);
      assert Framed(w, n);
    }
  }

  lemma BlockedExactly(next: seq<byte>, recordId: nat)
    ensures Blocked(next, recordId) <==> exists m: nat :: Framed(next, m) && FromLE(next[8..16]) <= recordId
  {
    hide FromLE, Has;
    FramedExactly(next);
    if Blocked(next, recordId) {
      var m: nat :| Framed(next, m);
    }
  }

  /** A record is accepted exactly when it is sound, with the size it is framed by and its identifier. */
  lemma RecordExactly(w: seq<byte>, config: Config)
    ensures ValidateRecord(w, config).Ok? <==> exists n: nat :: SoundRecord(w, config, n)
    ensures forall n: nat :: SoundRecord(w, config, n) ==> ValidateRecord(w, config) == Ok(Frame(n, FromLE(w[8..16])))
  {
    hide FromLE, ToLE, Has, Blocked;
    FramedExactly(w);
    forall n: nat | SoundRecord(w, config, n)
      ensures ValidateRecord(w, config) == Ok(Frame(n, FromLE(w[8..16])))
    {
      FramedFields(w, n);
      BlockedExactly(w[n..], Field(w, 8, 8));
    }
    if ValidateRecord(w, config).Ok? {
      var n := Field(w, 4, 4);
      Widths(w[4..8]);
      FramedFields(w, n);
      BlockedExactly(w[n..], Field(w, 8, 8));
      assert SoundRecord(w, config, n);
    }
  }

  /** A window that starts no sound record is refused for the first thing wrong with it. */
  lemma RecordRefused(w: seq<byte>, config: Config)
    ensures |w| < 28 ==> ValidateRecord(w, config) == Err(Truncated(28, |w|))
    ensures |w| >= 28 ==>
      var n, time := FromLE(w[4..8]), FromLE(w[16..24]);
      var refused := ValidateRecord(w, config);
      if w[..4] != [0x2a, 0x2a, 0x00, 0x00] then refused == Err(NotThisFormat)
      else if n < 28 || n > config.maxRecordSize then refused == Err(LengthOutOfBounds(n, config.maxRecordSize))
      else if n % 8 != 0 then refused == Err(FailedValidation(Misaligned))
      else if |w| < n then refused == Err(Truncated(n, |w|))
      else if !Has(w, n - 4, n, 4) then refused == Err(FailedValidation(HeadTail))
      else if time < config.minFileTime || time > config.maxFileTime then refused == Err(FailedValidation(FileTime))
      else refused.Ok? || refused == Err(FailedValidation(NotIncreasing))
  {
    hide FromLE, ToLE, Has, Blocked;
    if |w| >= 28 {
      var n := Field(w, 4, 4);
      Widths(w[4..8]);
      Capacities();
      if 28 <= n <= |w| {
        HasField(w, n - 4, n, 4);
      }
    }
  }

  lemma FramedFields(w: seq<byte>, n: nat)
    requires 28 <= n <= |w| && n < U32_LIMIT
    ensures Framed(w, n) <==> n % 8 == 0 && w[..4] == RECORD_MAGIC && Field(w, 4, 4) == n && Field(w, n - 4, 4) == n
  {
    hide FromLE, ToLE;
    Capacities();
    HasField(w, 4, n, 4);
    HasField(w, n - 4, n, 4);
  }
}
