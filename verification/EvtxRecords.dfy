/** Event records written by the fixture builders, and how record validation fares on them: exactly when
    one is accepted, what a shorter window changes, and the salvage of a whole stream. */
module EvtxRecords {
  import opened Bytes
  import opened Crc32
  import opened Evtx

  // ----- builders

  /** `copy_from_slice` into a stretch of the buffer. */
  method CopyIn(a: array<byte>, at: nat, bytes: seq<byte>)
    requires at + |bytes| <= a.Length
    modifies a
    ensures a[..] == Put(old(a[..]), at, bytes)
  {
    forall i | 0 <= i < |bytes| {
      a[at + i] := bytes[i];
    }
  }

  method Zeroed(n: nat) returns (a: array<byte>)
    ensures fresh(a) && a.Length == n && forall i :: 0 <= i < n ==> a[i] == 0
  {
    a := new byte[n](_ => 0);
  }

  /** Size of a record with that body: header, body and trailer, rounded up to a multiple of eight. */
  function RecordSize(body: seq<byte>): (n: nat)
    ensures n % 8 == 0 && RECORD_HEADER_SIZE + |body| + 4 <= n < RECORD_HEADER_SIZE + |body| + 4 + 8
  {
    (RECORD_HEADER_SIZE + |body| + 4 + 7) / 8 * 8
  }

  function Zeros(n: nat): seq<byte> {
    seq(n, _ => 0)
  }

  function RecordBytes(recordId: u64, fileTime: u64, body: seq<byte>): (r: seq<byte>)
    ensures |r| == RecordSize(body)
  {
    var size := RecordSize(body);
    RECORD_MAGIC + ToLE(size, 4) + ToLE(recordId, 8) + ToLE(fileTime, 8) + body
    + Zeros(size - MIN_RECORD - |body|) + ToLE(size, 4)
  }

  method BuildRecord(recordId: u64, fileTime: u64, body: seq<byte>) returns (rec: array<byte>)
    requires RecordSize(body) < U32_LIMIT
    ensures fresh(rec) && rec[..] == RecordBytes(recordId, fileTime, body)
  {
    hide Put, ToLE, RecordBytes;
    var size := RecordSize(body);
    rec := Zeroed(size);
    CopyIn(rec, 0, RECORD_MAGIC);
    CopyIn(rec, 4, ToLE(size, 4));
    CopyIn(rec, 8, ToLE(recordId, 8));
    CopyIn(rec, 16, ToLE(fileTime, 8));
    CopyIn(rec, 24, body);
    CopyIn(rec, size - 4, ToLE(size, 4));
    RecordWritten(recordId, fileTime, body);
  }

  lemma RecordWritten(recordId: u64, fileTime: u64, body: seq<byte>)
    ensures
      var size := RecordSize(body);
      var header := Put(Put(Put(Put(Zeros(size), 0, RECORD_MAGIC), 4, ToLE(size, 4)), 8, ToLE(recordId, 8)),
                        16, ToLE(fileTime, 8));
      Put(Put(header, 24, body), size - 4, ToLE(size, 4)) == RecordBytes(recordId, fileTime, body)
  {
    hide Put, ToLE;
  }

  // ----- chunks

  /** The chunk before its checksums are filled in. */
  function ChunkBody(records: seq<byte>): (s: seq<byte>)
    requires CHUNK_HEADER_SIZE + |records| <= CHUNK_SIZE
    ensures |s| == CHUNK_SIZE
  {
    var freeSpace := CHUNK_HEADER_SIZE + |records|;
    var ids := Put(Put(Put(Put(Put(Zeros(CHUNK_SIZE), 0, CHUNK_MAGIC), 8, ToLE(1, 8)), 16, ToLE(2, 8)),
                       24, ToLE(1, 8)), 32, ToLE(2, 8));
    var filled := Put(Put(ids, 40, ToLE(128, 4)), CHUNK_HEADER_SIZE, records);
    Put(Put(filled, 44, ToLE(freeSpace, 4)), 48, ToLE(freeSpace, 4))
  }

  function WithRecordsCrc(records: seq<byte>): (s: seq<byte>)
    requires CHUNK_HEADER_SIZE + |records| <= CHUNK_SIZE
    ensures |s| == CHUNK_SIZE
  {
    var body := ChunkBody(records);
    Put(body, 52, ToLE(Crc(body[CHUNK_HEADER_SIZE..CHUNK_HEADER_SIZE + |records|]), 4))
  }

  function ChunkBytes(records: seq<byte>): (s: seq<byte>)
    requires CHUNK_HEADER_SIZE + |records| <= CHUNK_SIZE
    ensures |s| == CHUNK_SIZE
  {
    var chunk := WithRecordsCrc(records);
    Put(chunk, 124, ToLE(ChunkHeaderCrc(chunk), 4))
  }

  method BuildChunk(records: seq<byte>) returns (chunk: array<byte>)
    requires CHUNK_HEADER_SIZE + |records| <= CHUNK_SIZE
    ensures fresh(chunk) && chunk[..] == ChunkBytes(records)
  {
    hide Crc, Update, Finalize, ToLE, Put, ChunkBody;
    chunk := Zeroed(CHUNK_SIZE);
    FillChunk(chunk, records);
    var freeSpace := CHUNK_HEADER_SIZE + |records|;
    assert chunk[CHUNK_HEADER_SIZE..freeSpace] == chunk[..][CHUNK_HEADER_SIZE..freeSpace];
    CopyIn(chunk, 52, ToLE(Crc(chunk[CHUNK_HEADER_SIZE..freeSpace]), 4));
    assert chunk[..] == WithRecordsCrc(records);
    hide WithRecordsCrc;
    assert chunk[0..120] == chunk[..][0..120] && chunk[128..512] == chunk[..][128..512];
    var hasher := Update(INIT, chunk[0..120]);
    hasher := Update(hasher, chunk[128..512]);
    CopyIn(chunk, 124, ToLE(Finalize(hasher), 4));
  }

  method FillChunk(chunk: array<byte>, records: seq<byte>)
    requires CHUNK_HEADER_SIZE + |records| <= CHUNK_SIZE == chunk.Length
    requires forall i :: 0 <= i < CHUNK_SIZE ==> chunk[i] == 0
    modifies chunk
    ensures chunk[..] == ChunkBody(records)
  {
    hide ToLE, Put;
    var freeSpace := CHUNK_HEADER_SIZE + |records|;
    assert chunk[..] == Zeros(CHUNK_SIZE);
    CopyIn(chunk, 0, CHUNK_MAGIC);
    CopyIn(chunk, 8, ToLE(1, 8));
    CopyIn(chunk, 16, ToLE(2, 8));
    CopyIn(chunk, 24, ToLE(1, 8));
    CopyIn(chunk, 32, ToLE(2, 8));
    CopyIn(chunk, 40, ToLE(128, 4));
    CopyIn(chunk, CHUNK_HEADER_SIZE, records);
    CopyIn(chunk, 44, ToLE(freeSpace, 4));
    CopyIn(chunk, 48, ToLE(freeSpace, 4));
  }

  // ----- file headers

  /** The first 120 bytes of a file header: magic, chunk numbers, next record and anything up to the flags. */
  function FileHeaderStart(first: u64, last: u64, next: u64, rest: seq<byte>): (s: seq<byte>)
    requires |rest| == 88
    ensures |s| == 120
  {
    [0x45, 0x6c, 0x66, 0x46, 0x69, 0x6c, 0x65, 0x00] + ToLE(first, 8) + ToLE(last, 8) + ToLE(next, 8) + rest
  }

  function FileHeaderBytes(first: u64, last: u64, next: u64, rest: seq<byte>, flags: u32): (s: seq<byte>)
    requires |rest| == 88
    ensures |s| == FILE_HEADER_SIZE
  {
    var start := FileHeaderStart(first, last, next, rest);
    start + ToLE(flags, 4) + ToLE(Crc(start), 4)
  }

  /** The fixture's sizes, versions and chunk count, and zeros up to the flags. */
  function FixtureRest(): (s: seq<byte>)
    ensures |s| == 88
  {
    ToLE(128, 4) + ToLE(1, 2) + ToLE(3, 2) + ToLE(4096, 2) + ToLE(4, 2) + Zeros(76)
  }

  /** The header before its checksum is filled in, field by field. */
  function FileHeaderBody(): (s: seq<byte>)
    ensures |s| == FILE_HEADER_SIZE
  {
    var numbers := Put(Put(Put(Put(Zeros(FILE_HEADER_SIZE), 0, FILE_MAGIC), 8, ToLE(1, 8)), 16, ToLE(3, 8)),
                       24, ToLE(42, 8));
    var versions := Put(Put(Put(numbers, 32, ToLE(128, 4)), 36, ToLE(1, 2)), 38, ToLE(3, 2));
    Put(Put(Put(versions, 40, ToLE(4096, 2)), 42, ToLE(4, 2)), 120, ToLE(1, 4))
  }

  lemma FileHeaderWritten()
    ensures FileHeaderBody()[0..120] == FileHeaderStart(1, 3, 42, FixtureRest())
    ensures FileHeaderBody()[120..124] == ToLE(1, 4)
  {
    hide Put, ToLE;
  }

  method BuildFileHeader() returns (hdr: array<byte>)
    ensures fresh(hdr) && hdr[..] == FileHeaderBytes(1, 3, 42, FixtureRest(), 1)
  {
    hide Put, ToLE, Crc, FileHeaderStart, FixtureRest, Zeros;
    hdr := Zeroed(FILE_HEADER_SIZE);
    FillFileHeader(hdr);
    FileHeaderWritten();
    hide FileHeaderBody;
    assert hdr[0..120] == hdr[..][0..120];
    CopyIn(hdr, 124, ToLE(Crc(hdr[0..120]), 4));
    var body := FileHeaderBody();
    assert hdr[..] == body[0..120] + body[120..124] + ToLE(Crc(body[0..120]), 4);
  }

  method FillFileHeader(hdr: array<byte>)
    requires hdr.Length == FILE_HEADER_SIZE && forall i :: 0 <= i < FILE_HEADER_SIZE ==> hdr[i] == 0
    modifies hdr
    ensures hdr[..] == FileHeaderBody()
  {
    hide ToLE, Put;
    assert hdr[..] == Zeros(FILE_HEADER_SIZE);
    CopyIn(hdr, 0, FILE_MAGIC);
    CopyIn(hdr, 8, ToLE(1, 8));
    CopyIn(hdr, 16, ToLE(3, 8));
    CopyIn(hdr, 24, ToLE(42, 8));
    CopyIn(hdr, 32, ToLE(128, 4));
    CopyIn(hdr, 36, ToLE(1, 2));
    CopyIn(hdr, 38, ToLE(3, 2));
    CopyIn(hdr, 40, ToLE(4096, 2));
    CopyIn(hdr, 42, ToLE(4, 2));
    CopyIn(hdr, 120, ToLE(1, 4));
  }

  lemma BodyFields(records: seq<byte>)
    requires CHUNK_HEADER_SIZE + |records| <= CHUNK_SIZE
    ensures
      var s, freeSpace := ChunkBody(records), CHUNK_HEADER_SIZE + |records|;
      && s[..8] == CHUNK_MAGIC
      && Field(s, 8, 8) == 1 && Field(s, 16, 8) == 2 && Field(s, 24, 8) == 1 && Field(s, 32, 8) == 2
      && Field(s, 48, 4) == freeSpace
      && s[CHUNK_HEADER_SIZE..freeSpace] == records
  {
    hide Put, ToLE, FromLE, Field;
    Capacities();
    hide Capacity;
    var s := ChunkBody(records);
    FieldWritten(s, 8, 1, 8);
    FieldWritten(s, 16, 2, 8);
    FieldWritten(s, 24, 1, 8);
    FieldWritten(s, 32, 2, 8);
    FieldWritten(s, 48, CHUNK_HEADER_SIZE + |records|, 4);
  }

  lemma FieldElsewhere(s: seq<byte>, at: nat, bytes: seq<byte>, field: nat, width: nat)
    requires at + |bytes| <= |s| && field + width <= |s| && (field + width <= at || at + |bytes| <= field)
    ensures Field(Put(s, at, bytes), field, width) == Field(s, field, width)
  {
    hide Put;
    SameField(s, Put(s, at, bytes), field, width);
  }

  /** Any records that fit can be wrapped in a chunk that validates in full and carries them. */
  lemma ChunkRoundTrip(records: seq<byte>)
    requires CHUNK_HEADER_SIZE + |records| <= CHUNK_SIZE
    ensures ValidateChunk(ChunkBytes(records)) == Ok(CHUNK_SIZE)
    ensures FreeSpace(ChunkBytes(records)) == CHUNK_HEADER_SIZE + |records|
    ensures ChunkBytes(records)[CHUNK_HEADER_SIZE..CHUNK_HEADER_SIZE + |records|] == records
  {
    hide Crc, Update, Finalize, ToLE, FromLE, Put, ChunkBody, Field;
    Capacities();
    hide Capacity;
    BodyFields(records);
    var body, chunk, data := ChunkBody(records), WithRecordsCrc(records), ChunkBytes(records);
    var freeSpace := CHUNK_HEADER_SIZE + |records|;
    var recordsCrc := ToLE(Crc(records), 4);
    var headerCrc := ToLE(ChunkHeaderCrc(chunk), 4);
    FieldElsewhere(body, 52, recordsCrc, 8, 8); FieldElsewhere(chunk, 124, headerCrc, 8, 8);
    FieldElsewhere(body, 52, recordsCrc, 16, 8); FieldElsewhere(chunk, 124, headerCrc, 16, 8);
    FieldElsewhere(body, 52, recordsCrc, 24, 8); FieldElsewhere(chunk, 124, headerCrc, 24, 8);
    FieldElsewhere(body, 52, recordsCrc, 32, 8); FieldElsewhere(chunk, 124, headerCrc, 32, 8);
    FieldElsewhere(body, 52, recordsCrc, 48, 4); FieldElsewhere(chunk, 124, headerCrc, 48, 4);
    FieldWritten(data, 52, Crc(records), 4);
    FieldWritten(data, 124, ChunkHeaderCrc(chunk), 4);
    assert data[..8] == body[..8];
    assert data[CHUNK_HEADER_SIZE..freeSpace] == body[CHUNK_HEADER_SIZE..freeSpace];
    SameHeaderCrc(chunk, data);
  }

  // ----- validating written records

  lemma RecordFields(recordId: u64, fileTime: u64, body: seq<byte>, tail: seq<byte>)
    requires RecordSize(body) < U32_LIMIT
    ensures
      var data, size := RecordBytes(recordId, fileTime, body) + tail, RecordSize(body);
      && MIN_RECORD <= size && size % 8 == 0 && |data| >= size
      && data[..4] == RECORD_MAGIC && data[size..] == tail
      && Field(data, 4, 4) == size && Field(data, 8, 8) == recordId && Field(data, 16, 8) == fileTime
      && Field(data, size - 4, 4) == size
  {
    hide ToLE, FromLE, Field;
    Capacities();
    hide Capacity;
    var size := RecordSize(body);
    var record := RecordBytes(recordId, fileTime, body);
    var data := record + tail;
    FieldWritten(data, 4, size, 4);
    FieldWritten(data, 8, recordId, 8);
    FieldWritten(data, 16, fileTime, 8);
    FieldWritten(data, size - 4, size, 4);
  }

  predicate Plausible(config: Config, fileTime: nat) {
    config.minFileTime <= fileTime <= config.maxFileTime
  }

  /** A written record followed by anything is accepted, with its own size and identifier, exactly when its
      size and time are within the configured bounds and no complete record with a lower or equal
      identifier follows. */
  lemma RecordAccepted(recordId: u64, fileTime: u64, body: seq<byte>, tail: seq<byte>, config: Config)
    requires RecordSize(body) < U32_LIMIT
    ensures
      var r := ValidateRecord(RecordBytes(recordId, fileTime, body) + tail, config);
      && (r.Ok? <==>
          RecordSize(body) <= config.maxRecordSize && Plausible(config, fileTime) && !Blocked(tail, recordId))
      && (r.Ok? ==> r.value == Frame(RecordSize(body), recordId))
  {
    hide Field, RecordBytes, Blocked;
    RecordFields(recordId, fileTime, body, tail);
  }

  lemma RecordWellFormed(recordId: u64, fileTime: u64, body: seq<byte>, tail: seq<byte>)
    requires RecordSize(body) < U32_LIMIT
    ensures WellFormed(RecordBytes(recordId, fileTime, body) + tail)
    ensures forall id: nat :: Blocked(RecordBytes(recordId, fileTime, body) + tail, id) <==> recordId <= id
  {
    hide Field, RecordBytes;
    RecordFields(recordId, fileTime, body, tail);
  }

  // ----- windows

  /** The neighbour check never turns a rejection into an acceptance when more bytes become visible. */
  lemma BlockedGrows(next: seq<byte>, k: nat, recordId: nat)
    requires k <= |next| && Blocked(next[..k], recordId)
    ensures Blocked(next, recordId)
  {
    hide FromLE;
    var shown := next[..k];
    var size := Field(shown, 4, 4);
    SameField(shown, next, 4, 4);
    SameField(shown, next, size - 4, 4);
    SameField(shown, next, 8, 8);
    assert shown[..4] == next[..4];
  }

  /** A shorter window that still holds the record never loses it: whatever a window accepts, each of its
      prefixes of at least the record's size accepts, with the same frame. */
  lemma ShorterWindowKeeps(data: seq<byte>, k: nat, config: Config)
    requires ValidateRecord(data, config).Ok?
    requires ValidateRecord(data, config).value.size <= k <= |data|
    ensures ValidateRecord(data[..k], config) == ValidateRecord(data, config)
  {
    hide FromLE, Blocked;
    var shown, size := data[..k], ValidateRecord(data, config).value.size;
    SameField(shown, data, 4, 4);
    SameField(shown, data, size - 4, 4);
    SameField(shown, data, 8, 8);
    SameField(shown, data, 16, 8);
    assert shown[..4] == data[..4];
    assert shown[size..] == data[size..][..k - size];
    if Blocked(shown[size..], Field(data, 8, 8)) {
      BlockedGrows(data[size..], k - size, Field(data, 8, 8));
    }
  }

  /** A longer window loses an accepted record exactly when it brings a complete record with a lower or
      equal identifier into view. */
  lemma LongerWindow(data: seq<byte>, k: nat, config: Config)
    requires k <= |data| && ValidateRecord(data[..k], config).Ok?
    ensures
      var frame := ValidateRecord(data[..k], config).value;
      && frame.size <= k
      && (ValidateRecord(data, config).Ok? <==> !Blocked(data[frame.size..], frame.recordId))
      && (ValidateRecord(data, config).Ok? ==> ValidateRecord(data, config).value == frame)
  {
    hide FromLE, Blocked;
    var shown, size := data[..k], ValidateRecord(data[..k], config).value.size;
    SameField(shown, data, 4, 4);
    SameField(shown, data, size - 4, 4);
    SameField(shown, data, 8, 8);
    SameField(shown, data, 16, 8);
    assert shown[..4] == data[..4];
  }
}
