/** Carving end to end against the builders: what is written into a source comes back out of it, whatever
    surrounds it. */
module SalvageCarving {
  import opened Bytes
  import opened Sources
  import opened Extractors
  import opened Evtx
  import opened EvtxRecords
  import opened EvtxSound
  import opened Salvage
  import Crc32
  import Carving

  /** A carving holds one artefact at the offset, with these bytes. */
  ghost predicate OnlyAt(carved: seq<Carved>, offset: nat, kind: string, bytes: seq<byte>) {
    && Carved(offset, kind, bytes) in carved
    && forall k :: 0 <= k < |carved| && carved[k].offset == offset ==> carved[k] == Carved(offset, kind, bytes)
  }

  /** What lies whole in the window at its place, and is a sound structure there, is carved. */
  lemma PlacedCarved(before: seq<byte>, bytes: seq<byte>, after: seq<byte>, config: Config, carved: seq<Carved>,
                     kind: string)
    requires var s := Raw(before + bytes + after);
      Readable(s, 0, s.Size()) && Carving.Exact(s, config, carved)
    requires bytes != [] && Yields(config, WindowAt(before + bytes + after, |before|), kind, |bytes|)
    ensures OnlyAt(carved, |before|, kind, bytes)
  {
    hide Yields, ByteAt, Slice, Carving.Exact;
    var area := before + bytes + after;
    WindowsAgree(area, |before|);
    RawBytes(area, |before|, |bytes|);
    Carving.ExactAt(Raw(area), config, carved, |before|, kind, |bytes|);
  }

  lemma WindowsAgree(area: seq<byte>, offset: nat)
    requires offset <= |area|
    ensures Readable(Raw(area), 0, |area|)
    ensures Carving.WindowAt(Raw(area), offset) == WindowAt(area, offset)
  {
    RawBytes(area, 0, |area|);
    RawBytes(area, offset, Min(CHUNK_SIZE, |area| - offset));
  }

  // ----- chunks

  /** A chunk cut short past its records is still sound. */
  lemma ChunkPrefix(w: seq<byte>, end: nat, k: nat)
    requires SoundChunk(w, end) && end <= k <= |w|
    ensures SoundChunk(w[..k], end)
  {
    hide Crc32.Crc, FromLE, ToLE;
    var cut := w[..k];
    assert cut[..8] == w[..8] && cut[48..52] == w[48..52] && cut[52..56] == w[52..56] && cut[124..128] == w[124..128];
    assert cut[512..end] == w[512..end] && cut[0..120] == w[0..120] && cut[128..512] == w[128..512];
    assert cut[8..16] == w[8..16] && cut[16..24] == w[16..24] && cut[24..32] == w[24..32] && cut[32..40] == w[32..40];
  }

  lemma BuiltChunkYields(records: seq<byte>, k: nat, config: Config)
    requires 512 + |records| <= k <= 65536
    ensures Yields(config, ChunkBytes(records)[..k], "evtx.chunk", k)
  {
    hide ChunkBytes, ValidateChunk, SoundChunk, SoundFileHeader, SoundRecord;
    var w := ChunkBytes(records);
    ChunkRoundTrip(records);
    ChunkAccepted(w);
    var end: nat :| SoundChunk(w, end);
    SoundEnd(w, end);
    ChunkPrefix(w, end, k);
    assert |w[..k]| == k;
  }

  lemma SoundEnd(w: seq<byte>, end: nat)
    requires SoundChunk(w, end)
    ensures FreeSpace(w) == end
  {
    hide Crc32.Crc, FromLE, ToLE;
    Capacities();
    HasField(w, 48, end, 4);
  }

  /** An intact chunk anywhere in a source, or one cut short by the end of the source past its records, is
      carved whole, as one chunk. */
  lemma ChunkCarved(before: seq<byte>, records: seq<byte>, k: nat, after: seq<byte>, config: Config,
                    carved: seq<Carved>)
    requires 512 + |records| <= k <= 65536 && (k == 65536 || after == [])
    requires var s := Raw(before + ChunkBytes(records)[..k] + after);
      Readable(s, 0, s.Size()) && Carving.Exact(s, config, carved)
    ensures OnlyAt(carved, |before|, "evtx.chunk", ChunkBytes(records)[..k])
  {
    hide ChunkBytes, Yields, ByteAt, Carving.Exact;
    var bytes := ChunkBytes(records)[..k];
    BuiltChunkYields(records, k, config);
    assert WindowAt(before + bytes + after, |before|) == bytes;
    PlacedCarved(before, bytes, after, config, carved, "evtx.chunk");
  }

  // ----- file headers

  lemma BuiltHeaderSound(first: u64, last: u64, next: u64, rest: seq<byte>, flags: u32, tail: seq<byte>)
    requires |rest| == 88
    ensures SoundFileHeader(FileHeaderBytes(first, last, next, rest, flags) + tail) <==> first <= last
  {
    hide Crc32.Crc, FromLE, ToLE;
    Capacities();
    hide Capacity;
    var start := FileHeaderStart(first, last, next, rest);
    var w := FileHeaderBytes(first, last, next, rest, flags) + tail;
    assert w[0..120] == start && w[124..128] == ToLE(Crc32.Crc(start), 4);
    assert w[8..16] == ToLE(first, 8) && w[16..24] == ToLE(last, 8);
    LittleEndianRoundTrip(first, 8);
    LittleEndianRoundTrip(last, 8);
  }

  /** A file header with any chunk numbers in order is carved from anywhere in a source. */
  lemma FileHeaderCarved(before: seq<byte>, first: u64, last: u64, next: u64, rest: seq<byte>, flags: u32,
                         after: seq<byte>, config: Config, carved: seq<Carved>)
    requires |rest| == 88 && first <= last
    requires var s := Raw(before + FileHeaderBytes(first, last, next, rest, flags) + after);
      Readable(s, 0, s.Size()) && Carving.Exact(s, config, carved)
    ensures OnlyAt(carved, |before|, "evtx.file_header", FileHeaderBytes(first, last, next, rest, flags))
  {
    hide FileHeaderBytes, SoundFileHeader, SoundChunk, SoundRecord, ByteAt, Carving.Exact;
    var bytes := FileHeaderBytes(first, last, next, rest, flags);
    var window := WindowAt(before + bytes + after, |before|);
    var tail := window[128..];
    assert window == bytes + tail;
    BuiltHeaderSound(first, last, next, rest, flags, tail);
    PlacedCarved(before, bytes, after, config, carved, "evtx.file_header");
  }

  // ----- records

  /** Where record `i` of the stream lies. */
  function Boundary(before: seq<byte>, entries: seq<Entry>, i: nat): nat
    requires i <= |entries|
  {
    |before| + |Stream(entries[..i])|
  }

  lemma RecordYields(config: Config, offset: nat, w: seq<byte>, bytes: seq<byte>)
    requires EvtxExtract(config, offset, w) == Ok([Carved(offset, "evtx.record", bytes)])
    ensures Yields(config, w, "evtx.record", |bytes|)
  {
    hide EvtxExtract, Yields;
    ExtractYields(config, offset, w);
  }

  /** Whatever surrounds the stream, short of a complete record with a lower or equal identifier after it, an
      exact carving of the area holds at every record boundary exactly that record. */
  lemma StreamCarved(before: seq<byte>, entries: seq<Entry>, after: seq<byte>, config: Config, carved: seq<Carved>,
                     i: nat)
    requires Healthy(entries, config) && i < |entries|
    requires !Blocked(after, entries[|entries| - 1].recordId)
    requires var s := Raw(before + Stream(entries) + after);
      Readable(s, 0, s.Size()) && Carving.Exact(s, config, carved)
    ensures OnlyAt(carved, Boundary(before, entries, i), "evtx.record", Written(entries[i]))
  {
    hide Written, Stream, Blocked, EvtxExtract, ByteAt, WindowAt, Carving.Exact, Healthy, Yields, OnlyAt;
    var area, offset := before + Stream(entries) + after, Boundary(before, entries, i);
    var bytes := Written(entries[i]);
    EveryRecordSalvaged(before, entries, after, config, i);
    RecordYields(config, offset, WindowAt(area, offset), bytes);
    RecordNotEmpty(entries[i]);
    AreaFrom(before, entries, after, i);
    var rest := Stream(entries[i + 1..]) + after;
    assert area[offset..] == bytes + rest;
    assert area == area[..offset] + bytes + rest;
    PlacedCarved(area[..offset], bytes, rest, config, carved, "evtx.record");
  }

  lemma RecordNotEmpty(e: Entry)
    ensures |Written(e)| > 0
  {
  }
}
