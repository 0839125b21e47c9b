/** GUID partition tables written to a disk and read back, and what their checksums catch. */
module GptRoundTrip {
  import opened Bytes
  import opened Sources
  import opened Crc32
  import opened Partitions

  // ----- entries

  /** One entry of the array, with any name field and any vendor bytes after the first 128. */
  datatype GptEntry = GptEntry(guid: seq<byte>, unique: seq<byte>, first: u64, last: u64, attributes: seq<byte>,
                               name: seq<byte>, rest: seq<byte>)
  {
    predicate Valid(size: nat) {
      |guid| == 16 && |unique| == 16 && |attributes| == 8 && |name| == 72 && 128 + |rest| == size
    }

    /** The entry names a partition, and its bounds in bytes fit 64 bits. */
    predicate Used() {
      && (exists i :: 0 <= i < |guid| && guid[i] != 0)
      && first <= last && first * SECTOR < U64_LIMIT && (last - first + 1) * SECTOR < U64_LIMIT
    }
  }

  function UnitBytes(units: seq<nat>): (r: seq<byte>)
    ensures |r| == 2 * |units|
  {
    if units == [] then [] else ToLE(units[0], 2) + UnitBytes(units[1..])
  }

  function EntryBytes(e: GptEntry): seq<byte> {
    e.guid + e.unique + ToLE(e.first, 8) + ToLE(e.last, 8) + e.attributes + e.name + e.rest
  }

  /** A written name decodes to its units, whatever follows the zero unit that ends it. */
  lemma {:induction false} NameReads(units: seq<nat>, tail: seq<byte>)
    requires forall k :: 0 <= k < |units| ==> 0 < units[k] < 0x1_0000
    requires |tail| < 2 || tail[0..2] == [0, 0]
    ensures NameUnits(UnitBytes(units) + tail) == units
  {
    hide ToLE, FromLE;
    Capacities();
    var bytes := UnitBytes(units) + tail;
    if units == [] {
      assert bytes == tail;
      ZeroUnit();
    } else {
      NameReads(units[1..], tail);
      assert bytes[0..2] == ToLE(units[0], 2);
      LittleEndianRoundTrip(units[0], 2);
      assert bytes[2..] == UnitBytes(units[1..]) + tail;
    }
  }

  /** A name is missing exactly when its first unit is zero. */
  lemma NameKept(name: seq<byte>)
    requires |name| == 72
    ensures DecodeName(name) == if name[0..2] == [0, 0] then None else Some(NameUnits(name))
  {
    hide FromLE;
    ZeroUnit();
    if Field(name, 0, 2) == 0 {
      LittleEndianInjective(name[0..2], [0, 0]);
    }
  }

  lemma ZeroUnit()
    ensures FromLE([0, 0]) == 0
  {
  }

  function PartitionOf(e: GptEntry, index: nat): Option<Partition>
    requires |e.name| == 72
  {
    if e.Used() then
      Some(Partition(index, GptKind(e.guid), e.first * SECTOR, (e.last - e.first + 1) * SECTOR,
                     if e.name[0..2] == [0, 0] then None else Some(NameUnits(e.name))))
    else None
  }

  lemma EntryReads(e: GptEntry, size: nat, index: nat)
    requires e.Valid(size)
    ensures |EntryBytes(e)| == size
    ensures ParseEntry(EntryBytes(e), index) == PartitionOf(e, index)
  {
    hide ToLE, FromLE, Field, NameUnits, DecodeName;
    Capacities();
    hide Capacity;
    var bytes := EntryBytes(e);
    assert bytes[0..16] == e.guid;
    assert bytes[32..40] == ToLE(e.first, 8);
    assert bytes[40..48] == ToLE(e.last, 8);
    assert bytes[56..128] == e.name;
    FieldWritten(bytes, 32, e.first, 8);
    FieldWritten(bytes, 40, e.last, 8);
    NameKept(e.name);
  }

  /** The entry array. */
  function ArrayBytes(entries: seq<GptEntry>): seq<byte> {
    if entries == [] then [] else ArrayBytes(entries[..|entries| - 1]) + EntryBytes(entries[|entries| - 1])
  }

  /** The used entries, in order, numbered from zero. */
  function Listed(entries: seq<GptEntry>): seq<Partition>
    requires forall k :: 0 <= k < |entries| ==> |entries[k].name| == 72
  {
    if entries == [] then [] else
    var before := Listed(entries[..|entries| - 1]);
    match PartitionOf(entries[|entries| - 1], |before|)
    case Some(p) => before + [p]
    case None => before
  }

  ghost predicate AllValid(entries: seq<GptEntry>, size: nat) {
    forall k :: 0 <= k < |entries| ==> entries[k].Valid(size)
  }

  lemma {:induction false} ArrayLength(entries: seq<GptEntry>, size: nat)
    requires AllValid(entries, size)
    ensures |ArrayBytes(entries)| == |entries| * size
  {
    hide EntryBytes;
    var n := |entries|;
    if n > 0 {
      ArrayLength(entries[..n - 1], size);
      EntryLength(entries[n - 1], size);
      assert n * size == (n - 1) * size + size;
    }
  }

  lemma {:induction false} ArrayEntry(entries: seq<GptEntry>, size: nat, k: nat)
    requires AllValid(entries, size) && k < |entries|
    ensures 0 <= k * size <= (k + 1) * size <= |ArrayBytes(entries)|
    ensures Entry(ArrayBytes(entries), size, k) == EntryBytes(entries[k])
  {
    hide EntryBytes;
    var n := |entries|;
    var before, bytes := entries[..n - 1], ArrayBytes(entries);
    ArrayLength(entries, size);
    ArrayLength(before, size);
    EntryBounds(n, size, k);
    if k < n - 1 {
      ArrayEntry(before, size, k);
      Head(ArrayBytes(before), EntryBytes(entries[n - 1]), k * size, (k + 1) * size);
    } else {
      EntryLength(entries[k], size);
      assert bytes[k * size..] == EntryBytes(entries[k]);
    }
  }

  lemma Head(a: seq<byte>, b: seq<byte>, lo: nat, hi: nat)
    requires lo <= hi <= |a|
    ensures (a + b)[lo..hi] == a[lo..hi]
  {
  }

  lemma EntryLength(e: GptEntry, size: nat)
    requires e.Valid(size)
    ensures |EntryBytes(e)| == size
  {
  }

  lemma {:induction false} EntriesRead(entries: seq<GptEntry>, size: nat, n: nat)
    requires AllValid(entries, size) && size >= 128 && n <= |entries|
    ensures |ArrayBytes(entries)| == |entries| * size
    ensures ParseEntries(ArrayBytes(entries), size, |entries|, n) == Listed(entries[..n])
  {
    hide EntryBytes, ParseEntry, PartitionOf, ArrayBytes, Entry;
    ArrayLength(entries, size);
    if n > 0 {
      ArrayEntry(entries, size, n - 1);
      EntriesRead(entries, size, n - 1);
      EntryBounds(|entries|, size, n - 1);
      assert entries[..n][..n - 1] == entries[..n - 1];
      EntryReads(entries[n - 1], size, |Listed(entries[..n - 1])|);
    }
  }

  // ----- header

  /** A header's free choices: its declared size, where the array lies, and the bytes the reader ignores. */
  datatype Layout = Layout(headerSize: nat, entryLba: nat, entrySize: nat,
                           revision: seq<byte>, middle: seq<byte>, tail: seq<byte>)
  {
    predicate Valid() {
      && 92 <= headerSize <= SECTOR && 128 <= entrySize <= 4096
      && entryLba * SECTOR < U64_LIMIT
      && |revision| == 4 && |middle| == 52 && |tail| == 420
    }
  }

  /** The header sector with its checksum field zero. */
  function BlankHeader(l: Layout, count: nat, entriesCrc: nat): (r: seq<byte>)
    requires l.Valid()
    ensures |r| == SECTOR
  {
    [0x45, 0x46, 0x49, 0x20, 0x50, 0x41, 0x52, 0x54] + l.revision + ToLE(l.headerSize, 4) + [0, 0, 0, 0] + l.middle
    + ToLE(l.entryLba, 8) + ToLE(count, 4) + ToLE(l.entrySize, 4) + ToLE(entriesCrc, 4) + l.tail
  }

  function HeaderBytes(l: Layout, count: nat, entriesCrc: nat): (r: seq<byte>)
    requires l.Valid()
    ensures |r| == SECTOR
  {
    var blank := BlankHeader(l, count, entriesCrc);
    blank[..16] + ToLE(Crc(blank[..l.headerSize]), 4) + blank[20..]
  }

  lemma BlankFields(l: Layout, count: nat, entriesCrc: nat)
    requires l.Valid()
    ensures
      var blank := BlankHeader(l, count, entriesCrc);
      && blank[0..8] == EFI_PART && blank[12..16] == ToLE(l.headerSize, 4) && blank[16..20] == [0, 0, 0, 0]
      && blank[72..80] == ToLE(l.entryLba, 8) && blank[80..84] == ToLE(count, 4)
      && blank[84..88] == ToLE(l.entrySize, 4) && blank[88..92] == ToLE(entriesCrc, 4)
  {
  }

  /** The header a writer makes parses to what it was made from. */
  lemma HeaderReads(l: Layout, count: nat, entriesCrc: u32)
    requires l.Valid() && 1 <= count <= 4096
    ensures ParseHeader(HeaderBytes(l, count, entriesCrc)) ==
            Some(GptHeader(l.entryLba * SECTOR, count, l.entrySize, entriesCrc))
  {
    hide Crc, ToLE, FromLE, BlankHeader, Field;
    Capacities();
    hide Capacity;
    BlankFields(l, count, entriesCrc);
    var blank, header := BlankHeader(l, count, entriesCrc), HeaderBytes(l, count, entriesCrc);
    assert header[0..8] == blank[0..8] && header[12..16] == blank[12..16];
    assert header[72..80] == blank[72..80] && header[80..84] == blank[80..84];
    assert header[84..88] == blank[84..88] && header[88..92] == blank[88..92];
    assert header[16..20] == ToLE(Crc(blank[..l.headerSize]), 4);
    FieldWritten(header, 12, l.headerSize, 4);
    FieldWritten(header, 16, Crc(blank[..l.headerSize]), 4);
    FieldWritten(header, 72, l.entryLba, 8);
    FieldWritten(header, 80, count, 4);
    FieldWritten(header, 84, l.entrySize, 4);
    FieldWritten(header, 88, entriesCrc, 4);
    Restored(header, blank, l.headerSize);
  }

  lemma Restored(header: seq<byte>, blank: seq<byte>, size: nat)
    requires |header| == |blank| == SECTOR && 20 <= size <= SECTOR
    requires header[..16] == blank[..16] && header[20..] == blank[20..] && blank[16..20] == [0, 0, 0, 0]
    ensures Unchecked(header, size) == blank[..size]
  {
    assert header[20..size] == header[20..][..size - 20] == blank[20..][..size - 20] == blank[20..size];
    assert blank[..size] == blank[..16] + blank[16..20] + blank[20..size];
  }

  /** The writer reaches every header the reader accepts, and no other: acceptance is being some layout's
      header, byte for byte. */
  lemma HeaderAccepted(header: seq<byte>)
    requires |header| == SECTOR
    ensures ParseHeader(header).Some? <==> exists l: Layout, count: nat, entriesCrc: u32 ::
              l.Valid() && 1 <= count <= 4096 && header == HeaderBytes(l, count, entriesCrc)
  {
    hide HeaderBytes, Crc;
    forall l: Layout, count: nat, entriesCrc: u32
      | l.Valid() && 1 <= count <= 4096 && header == HeaderBytes(l, count, entriesCrc)
      ensures ParseHeader(header).Some?
    {
      HeaderReads(l, count, entriesCrc);
    }
    if ParseHeader(header).Some? {
      AcceptedRebuilt(header);
    }
  }

  function LayoutOf(header: seq<byte>): Layout
    requires |header| == SECTOR
  {
    Layout(Field(header, 12, 4), Field(header, 72, 8), Field(header, 84, 4),
           header[8..12], header[20..72], header[92..])
  }

  lemma AcceptedRebuilt(header: seq<byte>)
    requires |header| == SECTOR && ParseHeader(header).Some?
    ensures LayoutOf(header).Valid() && Field(header, 88, 4) < U32_LIMIT
    ensures header == HeaderBytes(LayoutOf(header), Field(header, 80, 4), Field(header, 88, 4))
  {
    hide Crc, ToLE, FromLE;
    Widths(header[88..92]);
    LittleEndianStored(header[12..16]);
    LittleEndianStored(header[16..20]);
    LittleEndianStored(header[72..80]);
    LittleEndianStored(header[80..84]);
    LittleEndianStored(header[84..88]);
    LittleEndianStored(header[88..92]);
    Rebuilt(header);
  }

  lemma Rebuilt(header: seq<byte>)
    requires |header| == SECTOR && LayoutOf(header).Valid() && header[0..8] == EFI_PART
    requires Crc(Unchecked(header, Field(header, 12, 4))) == Field(header, 16, 4)
    requires ToLE(Field(header, 12, 4), 4) == header[12..16] && ToLE(Field(header, 16, 4), 4) == header[16..20]
    requires ToLE(Field(header, 72, 8), 8) == header[72..80] && ToLE(Field(header, 80, 4), 4) == header[80..84]
    requires ToLE(Field(header, 84, 4), 4) == header[84..88] && ToLE(Field(header, 88, 4), 4) == header[88..92]
    ensures header == HeaderBytes(LayoutOf(header), Field(header, 80, 4), Field(header, 88, 4))
  {
    hide Crc, ToLE, Field;
    var l, count, crc := LayoutOf(header), Field(header, 80, 4), Field(header, 88, 4);
    var blank := BlankHeader(l, count, crc);
    assert blank == header[..16] + [0, 0, 0, 0] + header[20..];
    Restored(header, blank, l.headerSize);
    assert header == header[..16] + header[16..20] + header[20..];
  }

  // ----- round trip

  ghost predicate Reads(s: Source, at: nat, bytes: seq<byte>) {
    Readable(s, at, |bytes|) && Slice(s, at, |bytes|) == bytes
  }

  /** A disk with a written header and entry array reads back as exactly the used entries, in order, with
      their bounds in bytes. */
  lemma GptReadsBack(s: Source, l: Layout, entries: seq<GptEntry>)
    requires l.Valid() && AllValid(entries, l.entrySize) && 1 <= |entries| <= 4096
    requires Reads(s, SECTOR, HeaderBytes(l, |entries|, Crc(ArrayBytes(entries))))
    requires Reads(s, l.entryLba * SECTOR, ArrayBytes(entries))
    ensures TableOf(s) == PartitionTable(Gpt, Listed(entries))
  {
    hide Crc, ByteAt, HeaderBytes, ArrayBytes, ParseHeader, Listed, ParseEntries, MbrOf;
    HeaderReads(l, |entries|, Crc(ArrayBytes(entries)));
    EntriesRead(entries, l.entrySize, |entries|);
    assert entries[..|entries|] == entries;
  }

  /** A table lies on the disk: a header for some layout, and where it says, entries with the checksum it
      says. */
  ghost predicate HoldsGpt(s: Source, l: Layout, entries: seq<GptEntry>) {
    && l.Valid() && AllValid(entries, l.entrySize) && 1 <= |entries| <= 4096
    && Reads(s, 512, HeaderBytes(l, |entries|, Crc(ArrayBytes(entries))))
    && Reads(s, l.entryLba * 512, ArrayBytes(entries))
  }

  /** The entry that some bytes spell. */
  function EntryOf(bytes: seq<byte>): GptEntry
    requires |bytes| >= 128
  {
    Widths(bytes[32..40]);
    Widths(bytes[40..48]);
    GptEntry(bytes[0..16], bytes[16..32], Field(bytes, 32, 8), Field(bytes, 40, 8), bytes[48..56], bytes[56..128],
             bytes[128..])
  }

  lemma EntryRebuilt(bytes: seq<byte>)
    requires |bytes| >= 128
    ensures EntryOf(bytes).Valid(|bytes|) && EntryBytes(EntryOf(bytes)) == bytes
  {
    hide ToLE, FromLE;
    LittleEndianStored(bytes[32..40]);
    LittleEndianStored(bytes[40..48]);
    assert bytes == bytes[0..16] + bytes[16..32] + bytes[32..40] + bytes[40..48] + bytes[48..56] + bytes[56..128]
                    + bytes[128..];
  }

  /** Any array of the right length is the array of some entries. */
  lemma {:induction false} ArrayRebuilt(bytes: seq<byte>, size: nat, count: nat) returns (entries: seq<GptEntry>)
    requires size >= 128 && |bytes| == count * size
    ensures |entries| == count && AllValid(entries, size) && ArrayBytes(entries) == bytes
  {
    hide EntryBytes, EntryOf;
    if count == 0 {
      entries := [];
    } else {
      EntryBounds(count, size, count - 1);
      var cut := (count - 1) * size;
      var before := ArrayRebuilt(bytes[..cut], size, count - 1);
      EntryRebuilt(bytes[cut..]);
      entries := before + [EntryOf(bytes[cut..])];
      assert entries[..count - 1] == before;
      assert bytes == bytes[..cut] + bytes[cut..];
    }
  }

  /** A disk reads as GPT exactly when a table lies on it. */
  lemma GptExact(s: Source)
    ensures GptOf(s).Some? <==> exists l: Layout, entries: seq<GptEntry> :: HoldsGpt(s, l, entries)
    ensures forall l: Layout, entries: seq<GptEntry> :: HoldsGpt(s, l, entries) ==>
              TableOf(s) == PartitionTable(Gpt, Listed(entries))
  {
    hide ByteAt, HeaderBytes, ArrayBytes, ParseHeader, ParseEntries, Listed, MbrOf, Crc, Readable, Slice;
    forall l: Layout, entries: seq<GptEntry> | HoldsGpt(s, l, entries)
      ensures GptOf(s).Some? && TableOf(s) == PartitionTable(Gpt, Listed(entries))
    {
      GptReadsBack(s, l, entries);
    }
    if GptOf(s).Some? {
      GptRebuilt(s);
    }
  }

  lemma GptRebuilt(s: Source)
    requires GptOf(s).Some?
    ensures exists l: Layout, entries: seq<GptEntry> :: HoldsGpt(s, l, entries)
  {
    hide ByteAt, HeaderBytes, ArrayBytes, ParseEntries, Crc, EntryBytes;
    var header := Slice(s, SECTOR, SECTOR);
    var h := ParseHeader(header).value;
    AcceptedRebuilt(header);
    HeaderReads(LayoutOf(header), Field(header, 80, 4), Field(header, 88, 4));
    hide ParseHeader;
    var l := LayoutOf(header);
    var bytes := Slice(s, h.entriesOffset, h.count * h.entrySize);
    var entries := ArrayRebuilt(bytes, h.entrySize, h.count);
    assert HoldsGpt(s, l, entries);
  }

  /** Without its signature in sector 1 no table lies on a disk. */
  lemma NoSignature(s: Source)
    requires Readable(s, 512, 8) ==> Slice(s, 512, 8) != [0x45, 0x46, 0x49, 0x20, 0x50, 0x41, 0x52, 0x54]
    ensures GptOf(s) == None
  {
    hide ByteAt, Crc;
    if Readable(s, 512, 512) {
      assert Slice(s, 512, 512)[0..8] == Slice(s, 512, 8);
    }
  }

  /** Round trip: writing a table onto any disk with room for it, the array past the header, and reading
      the table of the result. */
  lemma GptRoundTrips(disk: seq<byte>, l: Layout, entries: seq<GptEntry>)
    requires l.Valid() && AllValid(entries, l.entrySize) && 1 <= |entries| <= 4096
    requires l.entryLba >= 2 && l.entryLba * SECTOR + |ArrayBytes(entries)| <= |disk|
    ensures
      var header := HeaderBytes(l, |entries|, Crc(ArrayBytes(entries)));
      var written := Put(Put(disk, SECTOR, header), l.entryLba * SECTOR, ArrayBytes(entries));
      TableOf(Raw(written)) == PartitionTable(Gpt, Listed(entries))
  {
    hide Crc, HeaderBytes, ArrayBytes, Put, TableOf, Listed;
    var header := HeaderBytes(l, |entries|, Crc(ArrayBytes(entries)));
    var table, at := ArrayBytes(entries), l.entryLba * SECTOR;
    var written := Put(Put(disk, SECTOR, header), at, table);
    assert written[SECTOR..SECTOR + |header|] == header;
    assert written[at..at + |table|] == table;
    RawBytes(written, SECTOR, |header|);
    RawBytes(written, at, |table|);
    GptReadsBack(Raw(written), l, entries);
  }

  // ----- tampering

  /** A change confined to four bytes of an accepted header sector, clear of the declared size and not
      spanning the end of the stored checksum, is caught unless it lies past the declared size. */
  lemma HeaderTampered(header: seq<byte>, other: seq<byte>, p: nat, n: nat)
    requires |header| == SECTOR && ParseHeader(header).Some? && AgreeOutside(header, other, p, n) && n <= 4
    requires AgreeOn(header, other, 12, 16) && (p + n <= 20 || p >= 20)
    ensures var size := Field(header, 12, 4);
      && 92 <= size <= SECTOR
      && (ParseHeader(other).Some? <==> AgreeOn(header, other, 0, size))
      && (ParseHeader(other).Some? ==> ParseHeader(other) == ParseHeader(header))
  {
    hide Crc, FromLE;
    var size := Field(header, 12, 4);
    SameField(header, other, 12, 4);
    SameField(header, other, 16, 4);
    SameField(header, other, 72, 8);
    SameField(header, other, 80, 4);
    SameField(header, other, 84, 4);
    SameField(header, other, 88, 4);
    var a, b := Unchecked(header, size), Unchecked(other, size);
    if AgreeOn(header, other, 0, size) {
      assert a == b;
      assert header[0..8] == other[0..8];
    } else if i :| 0 <= i < size && header[i] != other[i] && !(16 <= i < 20) {
      assert a[i] != b[i];
      assert AgreeOutside(a, b, p, n);
      BurstChanges(a, b, p, n);
      assert AgreeOn(header, other, 16, 20);
    } else {
      assert a == b;
      assert !AgreeOn(header, other, 16, 20);
    }
  }

  /** A change to an accepted entry array confined to four bytes is always caught. */
  lemma EntriesTampered(s: Source, t: Source, h: GptHeader, p: nat, n: nat)
    requires h.entrySize >= 128 && EntriesOf(s, h).Some? && n <= 4
    requires Readable(t, h.entriesOffset, h.count * h.entrySize)
    requires
      var size := h.count * h.entrySize;
      var a, b := Slice(s, h.entriesOffset, size), Slice(t, h.entriesOffset, size);
      AgreeOutside(a, b, p, n) && a != b
    ensures EntriesOf(t, h) == None
  {
    hide Crc, ParseEntries, ByteAt;
    var size := h.count * h.entrySize;
    BurstChanges(Slice(s, h.entriesOffset, size), Slice(t, h.entriesOffset, size), p, n);
  }
}
