/** MBR and GPT partition tables: what is read from any disk bytes, and where the partitions lie. */
module Partitions {
  import opened Bytes
  import opened Sources
  import opened Windows
  import opened Crc32

  const SECTOR: nat := 512

  datatype Scheme = Mbr | Gpt | Unpartitioned

  /** The partition type, before it is rendered as text. */
  datatype Kind = MbrKind(code: byte) | GptKind(guid: seq<byte>)

  datatype Partition = Partition(index: nat, kind: Kind, start: u64, length: u64, name: Option<seq<nat>>)

  datatype PartitionTable = PartitionTable(scheme: Scheme, partitions: seq<Partition>)

  lemma FieldRange(data: seq<byte>, at: nat, width: nat)
    requires at + width <= |data|
    ensures width == 4 ==> Field(data, at, width) < U32_LIMIT
    ensures width == 8 ==> Field(data, at, width) < U64_LIMIT
  {
    Widths(data[at..at + width]);
  }

  // ----- GPT

  const EFI_PART: seq<byte> := [0x45, 0x46, 0x49, 0x20, 0x50, 0x41, 0x52, 0x54]

  datatype GptHeader = GptHeader(entriesOffset: u64, count: nat, entrySize: nat, entriesCrc: nat)

  /** The header with its own checksum field zeroed, up to the size it declares. */
  function Unchecked(header: seq<byte>, size: nat): seq<byte>
    requires 20 <= size <= |header|
  {
    header[..16] + [0, 0, 0, 0] + header[20..size]
  }

  function ParseHeader(header: seq<byte>): (r: Option<GptHeader>)
    requires |header| == SECTOR
    ensures r.Some? ==> 128 <= r.value.entrySize <= 4096 && 1 <= r.value.count <= 4096
  {
    if header[0..8] != EFI_PART then None else
    var size := Field(header, 12, 4);
    if !(92 <= size <= SECTOR) then None else
    if Crc(Unchecked(header, size)) != Field(header, 16, 4) then None else
    var entryLba := Field(header, 72, 8);
    var count, entrySize := Field(header, 80, 4), Field(header, 84, 4);
    if !(128 <= entrySize <= 4096) || count == 0 || count > 4096 then None else
    if entryLba * SECTOR >= U64_LIMIT then None else
    Some(GptHeader(entryLba * SECTOR, count, entrySize, Field(header, 88, 4)))
  }

  /** UTF-16 units of a name field, up to the first zero. */
  function NameUnits(bytes: seq<byte>): seq<nat> {
    if |bytes| < 2 || Field(bytes, 0, 2) == 0 then [] else [Field(bytes, 0, 2)] + NameUnits(bytes[2..])
  }

  function DecodeName(bytes: seq<byte>): Option<seq<nat>> {
    var units := NameUnits(bytes);
    if units == [] then None else Some(units)
  }

  predicate AllZero(bytes: seq<byte>) {
    forall i :: 0 <= i < |bytes| ==> bytes[i] == 0
  }

  /** A used entry whose bounds, in bytes, fit 64 bits. */
  function ParseEntry(entry: seq<byte>, index: nat): Option<Partition>
    requires |entry| >= 128
  {
    var guid := entry[0..16];
    if AllZero(guid) then None else
    var first, last := Field(entry, 32, 8), Field(entry, 40, 8);
    if first * SECTOR >= U64_LIMIT || last < first || (last - first + 1) * SECTOR >= U64_LIMIT then None else
    Some(Partition(index, GptKind(guid), first * SECTOR, (last - first + 1) * SECTOR, DecodeName(entry[56..128])))
  }

  function Entry(entries: seq<byte>, size: nat, k: nat): (r: seq<byte>)
    requires k * size <= (k + 1) * size <= |entries|
    ensures |r| == (k + 1) * size - k * size
  {
    entries[k * size..(k + 1) * size]
  }

  function AddEntry(found: seq<Partition>, entry: seq<byte>): seq<Partition>
    requires |entry| >= 128
  {
    match ParseEntry(entry, |found|)
    case Some(p) => found + [p]
    case None => found
  }

  lemma EntryBounds(count: nat, size: nat, k: nat)
    requires k < count
    ensures 0 <= k * size <= (k + 1) * size <= count * size && (k + 1) * size - k * size == size
  {
    MulMonotone(k + 1, count, size);
  }

  /** Partitions of the first `n` entries. */
  function ParseEntries(entries: seq<byte>, size: nat, count: nat, n: nat): seq<Partition>
    requires size >= 128 && |entries| == count * size && n <= count
  {
    if n == 0 then [] else
    EntryBounds(count, size, n - 1);
    AddEntry(ParseEntries(entries, size, count, n - 1), Entry(entries, size, n - 1))
  }

  ghost function GptOf(s: Source): Option<seq<Partition>> {
    if !Readable(s, SECTOR, SECTOR) then None else
    match ParseHeader(Slice(s, SECTOR, SECTOR))
    case None => None
    case Some(h) => EntriesOf(s, h)
  }

  ghost function EntriesOf(s: Source, h: GptHeader): Option<seq<Partition>>
    requires h.entrySize >= 128
  {
    if !Readable(s, h.entriesOffset, h.count * h.entrySize) then None else
    var entries := Slice(s, h.entriesOffset, h.count * h.entrySize);
    if Crc(entries) != h.entriesCrc then None else
    Some(ParseEntries(entries, h.entrySize, h.count, h.count))
  }

  method ReadGpt(s: Source) returns (r: Option<seq<Partition>>)
    requires s.Valid()
    ensures r == GptOf(s)
  {
    hide Crc, ByteAt, ParseHeader, ParseEntries;
    var header := ReadBytes(s, SECTOR, SECTOR);
    if header.Err? { return None; }
    var parsed := ParseHeader(header.value);
    if parsed.None? { return None; }
    r := ReadEntries(s, parsed.value);
  }

  method ReadEntries(s: Source, h: GptHeader) returns (r: Option<seq<Partition>>)
    requires s.Valid() && h.entrySize >= 128
    ensures r == EntriesOf(s, h)
  {
    hide Crc, ByteAt, AddEntry;
    var read := ReadBytes(s, h.entriesOffset, h.count * h.entrySize);
    if read.Err? { return None; }
    var entries := read.value;
    if Crc(entries) != h.entriesCrc { return None; }
    var partitions := [];
    var k := 0;
    while k < h.count
      invariant 0 <= k <= h.count
      invariant partitions == ParseEntries(entries, h.entrySize, h.count, k)
    {
      EntryBounds(h.count, h.entrySize, k);
      partitions := AddEntry(partitions, Entry(entries, h.entrySize, k));
      k := k + 1;
    }
    return Some(partitions);
  }

  // ----- MBR

  /** The last two bytes of a boot record. */
  predicate Signed(sector: seq<byte>)
    requires |sector| == SECTOR
  {
    sector[510] == 0x55 && sector[511] == 0xAA
  }

  /** One 16-byte slot: its type, first sector and sector count. */
  datatype Slot = Slot(code: byte, start: u32, count: u32)

  function ParseSlot(sector: seq<byte>, at: nat): Slot
    requires at + 16 <= |sector|
  {
    FieldRange(sector, at + 8, 4);
    FieldRange(sector, at + 12, 4);
    Slot(sector[at + 4], Field(sector, at + 8, 4), Field(sector, at + 12, 4))
  }

  function Primary(index: nat, code: byte, startLba: nat, count: u32): Partition
    requires startLba * SECTOR < U64_LIMIT
  {
    Partition(index, MbrKind(code), startLba * SECTOR, count * SECTOR, None)
  }

  /** What the four slots have given so far. */
  datatype Slots = Slots(primaries: seq<Partition>, extended: Option<u32>)

  function AddSlot(found: Slots, slot: Slot): Slots {
    if slot.code == 0x00 || slot.code == 0xEE then found
    else if slot.code == 0x05 || slot.code == 0x0F || slot.code == 0x85 then found.(extended := Some(slot.start))
    else if slot.count == 0 then found
    else found.(primaries := found.primaries + [Primary(|found.primaries|, slot.code, slot.start, slot.count)])
  }

  function ParseSlots(sector: seq<byte>, n: nat): Slots
    requires |sector| == SECTOR && n <= 4
  {
    if n == 0 then Slots([], None) else AddSlot(ParseSlots(sector, n - 1), ParseSlot(sector, 446 + 16 * (n - 1)))
  }

  function AddVolume(found: seq<Partition>, ebr: nat, slot: Slot): seq<Partition>
    requires ebr <= 2 * U32_LIMIT
  {
    if slot.code != 0 && slot.count != 0 then found + [Primary(|found|, slot.code, ebr + slot.start, slot.count)]
    else found
  }

  const MAX_EBRS: nat := 1024

  /** The linked list of extended boot records from `ebr` on, with `left` sectors still allowed. */
  ghost function Walk(s: Source, base: u32, ebr: nat, left: nat, found: seq<Partition>): seq<Partition>
    requires ebr <= 2 * U32_LIMIT
    decreases left
  {
    if left == 0 || !Readable(s, ebr * SECTOR, SECTOR) then found else
    var sector := Slice(s, ebr * SECTOR, SECTOR);
    if !Signed(sector) then found else
    var more := AddVolume(found, ebr, ParseSlot(sector, 446));
    var next := ParseSlot(sector, 462).start;
    if next == 0 || base + next == ebr then more else Walk(s, base, base + next, left - 1, more)
  }

  ghost function MbrOf(s: Source): Option<seq<Partition>> {
    if !Readable(s, 0, SECTOR) then None else
    var sector := Slice(s, 0, SECTOR);
    if !Signed(sector) then None else
    var slots := ParseSlots(sector, 4);
    var partitions := match slots.extended
      case Some(base) => Walk(s, base, base, MAX_EBRS, slots.primaries)
      case None => slots.primaries;
    if partitions == [] then None else Some(partitions)
  }

  method ReadMbr(s: Source) returns (r: Option<seq<Partition>>)
    requires s.Valid()
    ensures r == MbrOf(s)
  {
    hide ByteAt, ParseSlot, AddSlot, Walk;
    var read := ReadBytes(s, 0, SECTOR);
    if read.Err? { return None; }
    var sector := read.value;
    if sector[510] != 0x55 || sector[511] != 0xAA { return None; }
    var slots := Slots([], None);
    var k := 0;
    while k < 4
      invariant 0 <= k <= 4
      invariant slots == ParseSlots(sector, k)
    {
      slots := AddSlot(slots, ParseSlot(sector, 446 + 16 * k));
      k := k + 1;
    }
    var partitions := slots.primaries;
    if slots.extended.Some? {
      partitions := ReadLogical(s, slots.extended.value, partitions);
    }
    return if partitions == [] then None else Some(partitions);
  }

  method ReadLogical(s: Source, base: u32, primaries: seq<Partition>) returns (partitions: seq<Partition>)
    requires s.Valid()
    ensures partitions == Walk(s, base, base, MAX_EBRS, primaries)
  {
    hide ByteAt, ParseSlot, AddVolume;
    partitions := primaries;
    var ebr: nat := base;
    var seen := 0;
    while seen < MAX_EBRS
      invariant 0 <= seen <= MAX_EBRS && ebr <= 2 * U32_LIMIT
      invariant Walk(s, base, ebr, MAX_EBRS - seen, partitions) == Walk(s, base, base, MAX_EBRS, primaries)
    {
      seen := seen + 1;
      var sector := ReadBytes(s, ebr * SECTOR, SECTOR);
      if sector.Err? { break; }
      if sector.value[510] != 0x55 || sector.value[511] != 0xAA { break; }
      partitions := AddVolume(partitions, ebr, ParseSlot(sector.value, 446));
      var next := ParseSlot(sector.value, 462).start;
      if next == 0 { break; }
      if base + next == ebr { break; }
      ebr := base + next;
    }
  }

  // ----- the table

  ghost function TableOf(s: Source): PartitionTable {
    match GptOf(s)
    case Some(partitions) => PartitionTable(Gpt, partitions)
    case None =>
      match MbrOf(s)
      case Some(partitions) => PartitionTable(Mbr, partitions)
      case None => PartitionTable(Unpartitioned, [])
  }

  method Read(s: Source) returns (t: PartitionTable)
    requires s.Valid()
    ensures t == TableOf(s)
  {
    hide GptOf, MbrOf;
    var gpt := ReadGpt(s);
    if gpt.Some? { return PartitionTable(Gpt, gpt.value); }
    var mbr := ReadMbr(s);
    if mbr.Some? { return PartitionTable(Mbr, mbr.value); }
    return PartitionTable(Unpartitioned, []);
  }

  // ----- containment

  /** Indices count up from 0, and every partition is a positive number of whole sectors. */
  predicate WellShaped(partitions: seq<Partition>) {
    forall k :: 0 <= k < |partitions| ==>
      && partitions[k].index == k
      && partitions[k].length > 0
      && partitions[k].length % SECTOR == 0 && partitions[k].start % SECTOR == 0
  }

  lemma {:induction false} EntriesShaped(entries: seq<byte>, size: nat, count: nat, n: nat)
    requires size >= 128 && |entries| == count * size && n <= count
    ensures WellShaped(ParseEntries(entries, size, count, n))
  {
    hide Field, DecodeName, AllZero, Entry;
    if n > 0 {
      EntriesShaped(entries, size, count, n - 1);
      EntryBounds(count, size, n - 1);
      EntryShaped(Entry(entries, size, n - 1), |ParseEntries(entries, size, count, n - 1)|);
    }
  }

  lemma EntryShaped(entry: seq<byte>, index: nat)
    requires |entry| >= 128
    ensures ParseEntry(entry, index).Some? ==>
      var p := ParseEntry(entry, index).value;
      p.index == index && p.length > 0 && p.length % SECTOR == 0 && p.start % SECTOR == 0
  {
  }

  lemma {:induction false} SlotsShaped(sector: seq<byte>, n: nat)
    requires |sector| == SECTOR && n <= 4
    ensures WellShaped(ParseSlots(sector, n).primaries)
  {
    hide ParseSlot;
    if n > 0 {
      SlotsShaped(sector, n - 1);
    }
  }

  lemma {:induction false} WalkShaped(s: Source, base: u32, ebr: nat, left: nat, found: seq<Partition>)
    requires ebr <= 2 * U32_LIMIT && WellShaped(found)
    ensures WellShaped(Walk(s, base, ebr, left, found)) && found <= Walk(s, base, ebr, left, found)
    ensures |Walk(s, base, ebr, left, found)| <= |found| + left
    decreases left
  {
    hide ParseSlot, ByteAt;
    if left > 0 && Readable(s, ebr * SECTOR, SECTOR) {
      var sector := Slice(s, ebr * SECTOR, SECTOR);
      if Signed(sector) {
        var more := AddVolume(found, ebr, ParseSlot(sector, 446));
        var next := ParseSlot(sector, 462).start;
        if next != 0 && base + next != ebr {
          WalkShaped(s, base, base + next, left - 1, more);
        }
      }
    }
  }

  /** Whatever bytes the disk holds, the table that is read is well shaped, and no more than the four
      primaries and 1024 logical volumes come from an MBR. */
  lemma TableShaped(s: Source)
    ensures WellShaped(TableOf(s).partitions)
    ensures TableOf(s).scheme == Unpartitioned <==> TableOf(s).partitions == [] && GptOf(s).None?
    ensures TableOf(s).scheme == Mbr ==> |TableOf(s).partitions| <= 4 + 1024
  {
    hide ByteAt, Crc, ParseSlot, Walk, ParseEntries, ParseHeader;
    if GptOf(s).Some? {
      var h := ParseHeader(Slice(s, SECTOR, SECTOR)).value;
      EntriesShaped(Slice(s, h.entriesOffset, h.count * h.entrySize), h.entrySize, h.count, h.count);
    } else if MbrOf(s).Some? {
      var sector := Slice(s, 0, SECTOR);
      SlotsShaped(sector, 4);
      PrimaryCount(sector, 4);
      var slots := ParseSlots(sector, 4);
      if slots.extended.Some? {
        WalkShaped(s, slots.extended.value, slots.extended.value, MAX_EBRS, slots.primaries);
      }
    }
  }

  lemma {:induction false} PrimaryCount(sector: seq<byte>, n: nat)
    requires |sector| == SECTOR && n <= 4
    ensures |ParseSlots(sector, n).primaries| <= n
  {
    hide ParseSlot;
    if n > 0 {
      PrimaryCount(sector, n - 1);
    }
  }

  function WindowOf(p: Partition, disk: Source): Result<Source, SourceError>
    requires disk.Valid()
  {
    Range(disk, p.start, Some(p.length))
  }

  /** A partition's window opens exactly when it starts within the disk; then it lies inside the disk, ends
      with it at the latest, and reads the disk's own bytes. */
  lemma WindowContained(p: Partition, disk: Source)
    requires disk.Valid()
    ensures WindowOf(p, disk).Ok? <==> p.start <= disk.Size()
    ensures WindowOf(p, disk).Ok? ==>
      var w := WindowOf(p, disk).value;
      && w.Size() == Min(p.length, disk.Size() - p.start)
      && forall i: nat :: ByteAt(w, i) == if i < w.Size() then ByteAt(disk, p.start + i) else None
  {
  }
}
