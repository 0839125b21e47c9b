/** Which containers the VHDX reader opens, said on the bytes that lie in them: the last region and metadata
    entries of each kind, by their published identifiers. */
module VhdxHeaders {
  import opened Bytes
  import opened Sources
  import opened Refusals
  import V = VhdxImages

  /** A GUID as it is stored: three little-endian numbers and eight bytes. */
  function Guid(a: u32, b: nat, c: nat, d: seq<byte>): seq<byte> {
    ToLE(a, 4) + ToLE(b, 2) + ToLE(c, 2) + d
  }

  function BatGuid(): seq<byte> {
    Guid(0x2DC27766, 0xF623, 0x4200, [0x9D, 0x64, 0x11, 0x5E, 0x9B, 0xFD, 0x4A, 0x08])
  }

  function MetadataGuid(): seq<byte> {
    Guid(0x8B7CA206, 0x4790, 0x4B9A, [0xB8, 0xFE, 0x57, 0x5F, 0x05, 0x0F, 0x88, 0x6E])
  }

  function FileParametersGuid(): seq<byte> {
    Guid(0xCAA16737, 0xFA36, 0x4D43, [0xB3, 0xB6, 0x33, 0xF0, 0xAA, 0x44, 0xE7, 0x6B])
  }

  function VirtualDiskSizeGuid(): seq<byte> {
    Guid(0x2FA54224, 0xCD1B, 0x4876, [0xB2, 0x11, 0x5D, 0xBE, 0xD8, 0x3B, 0xF4, 0xB8])
  }

  function LogicalSectorSizeGuid(): seq<byte> {
    Guid(0x8141BF1D, 0xA96F, 0x4709, [0xBA, 0x47, 0xF2, 0x33, 0xA8, 0xFA, 0xAB, 0x5F])
  }

  lemma TwoBytes(n: nat)
    requires n < 0x1_0000
    ensures ToLE(n, 2) == [n % 256, n / 256]
  {
    assert ToLE(n / 256, 1) == [n / 256 % 256];
  }

  lemma FourBytes(n: u32)
    ensures ToLE(n, 4) == [n % 256, n / 256 % 256, n / 0x1_0000 % 256, n / 0x100_0000]
  {
    var a, b, c := n / 256, n / 256 / 256, n / 256 / 256 / 256;
    assert ToLE(c, 1) == [c % 256];
    assert ToLE(b, 2) == [b % 256] + ToLE(c, 1);
    assert ToLE(a, 3) == [a % 256] + ToLE(b, 2);
    assert b == n / 0x1_0000 && c == n / 0x100_0000;
  }

  lemma GuidBytes(a: u32, b: nat, c: nat, d: seq<byte>)
    requires b < 0x1_0000 && c < 0x1_0000
    ensures Guid(a, b, c, d) ==
            [a % 256, a / 256 % 256, a / 0x1_0000 % 256, a / 0x100_0000, b % 256, b / 256, c % 256, c / 256] + d
  {
    hide ToLE;
    FourBytes(a);
    TwoBytes(b);
    TwoBytes(c);
  }

  lemma RegionGuids()
    ensures V.BAT_REGION == BatGuid() && V.METADATA_REGION == MetadataGuid()
  {
    hide Guid;
    GuidBytes(0x2DC27766, 0xF623, 0x4200, [0x9D, 0x64, 0x11, 0x5E, 0x9B, 0xFD, 0x4A, 0x08]);
    GuidBytes(0x8B7CA206, 0x4790, 0x4B9A, [0xB8, 0xFE, 0x57, 0x5F, 0x05, 0x0F, 0x88, 0x6E]);
  }

  lemma FileParametersIs()
    ensures V.FILE_PARAMETERS == FileParametersGuid()
  {
    hide Guid;
    GuidBytes(0xCAA16737, 0xFA36, 0x4D43, [0xB3, 0xB6, 0x33, 0xF0, 0xAA, 0x44, 0xE7, 0x6B]);
  }

  lemma VirtualDiskSizeIs()
    ensures V.VIRTUAL_DISK_SIZE == VirtualDiskSizeGuid()
  {
    hide Guid;
    GuidBytes(0x2FA54224, 0xCD1B, 0x4876, [0xB2, 0x11, 0x5D, 0xBE, 0xD8, 0x3B, 0xF4, 0xB8]);
  }

  lemma LogicalSectorSizeIs()
    ensures V.LOGICAL_SECTOR_SIZE == LogicalSectorSizeGuid()
  {
    hide Guid;
    GuidBytes(0x8141BF1D, 0xA96F, 0x4709, [0xBA, 0x47, 0xF2, 0x33, 0xA8, 0xFA, 0xAB, 0x5F]);
  }

  /** The identifiers the reader compares with are the published ones. */
  lemma Published()
    ensures V.BAT_REGION == BatGuid() && V.METADATA_REGION == MetadataGuid()
    ensures V.FILE_PARAMETERS == FileParametersGuid() && V.VIRTUAL_DISK_SIZE == VirtualDiskSizeGuid()
    ensures V.LOGICAL_SECTOR_SIZE == LogicalSectorSizeGuid()
  {
    hide BatGuid, MetadataGuid, FileParametersGuid, VirtualDiskSizeGuid, LogicalSectorSizeGuid;
    RegionGuids();
    FileParametersIs();
    VirtualDiskSizeIs();
    LogicalSectorSizeIs();
  }

  lemma Signatures()
    ensures V.FILE_ID == Ascii("vhdxfile") && V.REGI == Ascii("regi") && V.METADATA == Ascii("metadata")
  {
  }

  lemma Distinct()
    ensures |BatGuid()| == |MetadataGuid()| == |FileParametersGuid()| == 16
    ensures |VirtualDiskSizeGuid()| == |LogicalSectorSizeGuid()| == 16
    ensures BatGuid() != MetadataGuid() && FileParametersGuid() != VirtualDiskSizeGuid()
    ensures FileParametersGuid() != LogicalSectorSizeGuid() && VirtualDiskSizeGuid() != LogicalSectorSizeGuid()
  {
    hide Guid, BatGuid, MetadataGuid, FileParametersGuid, VirtualDiskSizeGuid, LogicalSectorSizeGuid;
    Published();
    assert V.BAT_REGION[0] != V.METADATA_REGION[0] && V.FILE_PARAMETERS[0] != V.VIRTUAL_DISK_SIZE[0];
    assert V.FILE_PARAMETERS[0] != V.LOGICAL_SECTOR_SIZE[0] && V.VIRTUAL_DISK_SIZE[0] != V.LOGICAL_SECTOR_SIZE[0];
  }

  // ----- tables of entries

  /** Entry `k` of a table of 32-byte entries starts with the identifier. */
  ghost predicate Named(s: Source, base: nat, k: nat, guid: seq<byte>) {
    Stored(s, base + k * 32, guid)
  }

  /** Entry `k` is the last one of `lo` to `n` with the identifier. */
  ghost predicate IsLast(s: Source, base: nat, lo: nat, n: nat, guid: seq<byte>, k: nat) {
    lo <= k < n && Named(s, base, k, guid) && forall j :: k < j < n ==> !Named(s, base, j, guid)
  }

  ghost predicate Absent(s: Source, base: nat, lo: nat, n: nat, guid: seq<byte>) {
    forall j :: lo <= j < n ==> !Named(s, base, j, guid)
  }

  lemma {:induction false} LastOrAbsent(s: Source, base: nat, lo: nat, n: nat, guid: seq<byte>)
    requires lo <= n
    ensures Absent(s, base, lo, n, guid) || exists k: nat :: IsLast(s, base, lo, n, guid, k)
    decreases n - lo
  {
    hide Named;
    if lo < n {
      var m := n - 1;
      LastOrAbsent(s, base, lo, m, guid);
      if Named(s, base, m, guid) {
        assert IsLast(s, base, lo, n, guid, m);
      } else if k: nat :| IsLast(s, base, lo, m, guid, k) {
        assert IsLast(s, base, lo, n, guid, k);
      }
    }
  }

  /** Reading entries `lo` to `n` leaves what the last one with the identifier gives, or what was known. */
  ghost predicate LastCounts<T(!new)>(s: Source, base: nat, lo: nat, n: nat, guid: seq<byte>, gives: nat -> T, known: T,
                                      r: T)
  {
    && (Absent(s, base, lo, n, guid) ==> r == known)
    && forall k: nat :: IsLast(s, base, lo, n, guid, k) ==> r == gives(k)
  }

  lemma EntryCounts<T(!new)>(s: Source, base: nat, lo: nat, n: nat, guid: seq<byte>, gives: nat -> T, known: T, next: T,
                             r: T)
    requires lo < n && LastCounts(s, base, lo + 1, n, guid, gives, next, r)
    requires next == if Named(s, base, lo, guid) then gives(lo) else known
    ensures LastCounts(s, base, lo, n, guid, gives, known, r)
  {
    hide Named;
    forall k: nat | IsLast(s, base, lo, n, guid, k)
      ensures r == gives(k)
    {
      if k > lo {
        assert IsLast(s, base, lo + 1, n, guid, k);
      } else {
        assert Absent(s, base, lo + 1, n, guid);
      }
    }
  }

  // ----- regions

  const REGIONS: nat := 0x3_0010

  ghost predicate RegionReadable(s: Source, k: nat) {
    BytesAt(s, REGIONS + k * 32, 16).Some? && BytesAt(s, REGIONS + k * 32 + 16, 8).Some?
  }

  /** The offset entry `k` gives. */
  ghost function RegionOffset(s: Source, k: nat): Option<int> {
    LittleEndianAt(s, REGIONS + k * 32 + 16, 8)
  }

  lemma NotedBy(known: V.Regions, guid: seq<byte>, offset: u64)
    ensures var next := V.NoteRegion(known, guid, offset);
      && next.bat == (if guid == BatGuid() then Some(offset) else known.bat)
      && next.metadata == if guid == MetadataGuid() then Some(offset) else known.metadata
  {
    hide BatGuid, MetadataGuid;
    Published();
    Distinct();
  }

  lemma RegionNoted(s: Source, k: nat, known: V.Regions)
    ensures V.RegionEntry(s, k, known).Some? <==> RegionReadable(s, k)
    ensures V.RegionEntry(s, k, known).Some? ==>
      var next := V.RegionEntry(s, k, known).value;
      && next.bat == (if Named(s, REGIONS, k, BatGuid()) then RegionOffset(s, k) else known.bat)
      && next.metadata == if Named(s, REGIONS, k, MetadataGuid()) then RegionOffset(s, k) else known.metadata
  {
    hide ByteAt, LittleEndianAt, BatGuid, MetadataGuid, Slice, Readable, ToLE, ToBE, Capacity, V.NoteRegion;
    Distinct();
    SomeNumber(s, REGIONS + k * 32 + 16, 8);
    if V.RegionEntry(s, k, known).Some? {
      NumberRange(s, REGIONS + k * 32 + 16, 8);
      NotedBy(known, BytesAt(s, REGIONS + k * 32, 16).value, LittleEndianAt(s, REGIONS + k * 32 + 16, 8).value);
    }
  }

  lemma {:induction false} RegionsFold(s: Source, lo: nat, n: nat, known: V.Regions)
    requires lo <= n
    ensures V.RegionsFrom(s, lo, n, known).Some? <==> forall k :: lo <= k < n ==> RegionReadable(s, k)
    ensures V.RegionsFrom(s, lo, n, known).Some? ==>
      var r, gives := V.RegionsFrom(s, lo, n, known).value, (k: nat) => RegionOffset(s, k);
      && LastCounts(s, REGIONS, lo, n, BatGuid(), gives, known.bat, r.bat)
      && LastCounts(s, REGIONS, lo, n, MetadataGuid(), gives, known.metadata, r.metadata)
    decreases n - lo
  {
    hide Named, RegionReadable, V.RegionEntry, BatGuid, MetadataGuid, RegionOffset;
    if lo < n {
      RegionNoted(s, lo, known);
      if V.RegionEntry(s, lo, known).Some? {
        var next := V.RegionEntry(s, lo, known).value;
        RegionsFold(s, lo + 1, n, next);
        if V.RegionsFrom(s, lo, n, known).Some? {
          var r, gives := V.RegionsFrom(s, lo, n, known).value, (k: nat) => RegionOffset(s, k);
          EntryCounts(s, REGIONS, lo, n, BatGuid(), gives, known.bat, next.bat, r.bat);
          EntryCounts(s, REGIONS, lo, n, MetadataGuid(), gives, known.metadata, next.metadata, r.metadata);
        }
      }
    }
  }

  /** A readable region table of at most 2047 entries. */
  ghost predicate RegionTableAt(s: Source, n: nat) {
    && Stored(s, 0x3_0000, Ascii("regi")) && n <= 2047 && LittleEndianAt(s, 0x3_0008, 4) == Some(n)
    && forall k :: 0 <= k < n ==> RegionReadable(s, k)
  }

  /** The last entry with the identifier gives this offset. */
  ghost predicate RegionAt(s: Source, n: nat, guid: seq<byte>, offset: nat) {
    exists k: nat :: IsLast(s, REGIONS, 0, n, guid, k) && RegionOffset(s, k) == Some(offset)
  }

  /** The region table yields exactly the offsets that the last entries of the two kinds give. */
  lemma RegionsExact(s: Source, bat: u64, metadata: u64)
    ensures V.RegionTable(s) == Ok((bat, metadata)) <==>
      exists n: nat :: RegionTableAt(s, n) && RegionAt(s, n, BatGuid(), bat) && RegionAt(s, n, MetadataGuid(), metadata)
  {
    hide LittleEndianAt, BytesAt, RegionReadable, BatGuid, MetadataGuid, V.RegionsFrom, RegionOffset, Ascii, RegionAt;
    Signatures();
    if LittleEndianAt(s, 0x3_0008, 4).Some? {
      var n := LittleEndianAt(s, 0x3_0008, 4).value;
      RegionsFold(s, 0, n, V.Regions(None, None));
      if V.RegionsFrom(s, 0, n, V.Regions(None, None)).Some? {
        var r := V.RegionsFrom(s, 0, n, V.Regions(None, None)).value;
        RegionGiven(s, n, BatGuid(), r.bat, bat);
        RegionGiven(s, n, MetadataGuid(), r.metadata, metadata);
      }
    }
  }

  lemma RegionGiven(s: Source, n: nat, guid: seq<byte>, r: Option<int>, offset: nat)
    requires LastCounts(s, REGIONS, 0, n, guid, (k: nat) => RegionOffset(s, k), None, r)
    ensures r == Some(offset) <==> RegionAt(s, n, guid, offset)
  {
    hide Named, RegionOffset;
    LastOrAbsent(s, REGIONS, 0, n, guid);
  }

  // ----- metadata

  /** Where the item of entry `k` lies, when its offset can be read. */
  ghost function ItemAt(s: Source, region: nat, k: nat): Option<int> {
    match LittleEndianAt(s, region + 32 + k * 32 + 16, 4)
    case None => None
    case Some(offset) => Some(region + offset)
  }

  ghost function ItemNumber(s: Source, region: nat, k: nat, width: nat): Option<int> {
    match ItemAt(s, region, k)
    case None => None
    case Some(item) => LittleEndianAt(s, item, width)
  }

  /** The flags after the block size of entry `k`'s item: bit 1 says the disk has a parent. */
  ghost function ItemParent(s: Source, region: nat, k: nat): Option<bool> {
    match ItemAt(s, region, k)
    case None => None
    case Some(item) =>
      match BytesAt(s, item + 4, 4)
      case None => None
      case Some(flags) => Some(flags[0] / 2 % 2 == 1)
  }

  /** An entry can be used: its identifier and offset can be read, and so can the item if its kind is known. */
  ghost predicate ItemReadable(s: Source, region: nat, k: nat) {
    && BytesAt(s, region + 32 + k * 32, 16).Some? && ItemAt(s, region, k).Some?
    && (Named(s, region + 32, k, FileParametersGuid()) ==>
          ItemNumber(s, region, k, 4).Some? && ItemParent(s, region, k).Some?)
    && (Named(s, region + 32, k, VirtualDiskSizeGuid()) ==> ItemNumber(s, region, k, 8).Some?)
    && (Named(s, region + 32, k, LogicalSectorSizeGuid()) ==> ItemNumber(s, region, k, 4).Some?)
  }

  /** What an item of file parameters gives. */
  ghost function ParametersOf(s: Source, region: nat, k: nat): (Option<int>, bool) {
    (ItemNumber(s, region, k, 4), ItemParent(s, region, k) == Some(true))
  }

  lemma ParentBit(s: Source, at: nat)
    ensures LittleEndianAt(s, at, 4).Some? <==> BytesAt(s, at, 4).Some?
    ensures BytesAt(s, at, 4).Some? ==>
      (LittleEndianAt(s, at, 4).value / 2 % 2 == 1 <==> BytesAt(s, at, 4).value[0] / 2 % 2 == 1)
  {
    hide ByteAt, Slice, FromLE;
    LittleEndianBytes(s, at, 4);
    if BytesAt(s, at, 4).Some? {
      SecondBit(BytesAt(s, at, 4).value);
    }
  }

  lemma SecondBit(f: seq<byte>)
    requires f != []
    ensures FromLE(f) / 2 % 2 == f[0] / 2 % 2
  {
  }

  lemma ItemNoted(s: Source, region: nat, k: nat, known: V.Metadata)
    ensures V.NoteItem(s, region, k, known).Some? <==> ItemReadable(s, region, k)
    ensures V.NoteItem(s, region, k, known).Some? ==>
      var next, base := V.NoteItem(s, region, k, known).value, region + 32;
      && (next.blockSize, next.hasParent) ==
         (if Named(s, base, k, FileParametersGuid()) then ParametersOf(s, region, k)
          else (known.blockSize, known.hasParent))
      && next.virtualSize ==
         (if Named(s, base, k, VirtualDiskSizeGuid()) then ItemNumber(s, region, k, 8) else known.virtualSize)
      && next.sectorSize ==
         if Named(s, base, k, LogicalSectorSizeGuid()) then ItemNumber(s, region, k, 4) else known.sectorSize
  {
    hide ByteAt, LittleEndianAt, FileParametersGuid, VirtualDiskSizeGuid, LogicalSectorSizeGuid, Slice, Readable,
      FromLE, ToLE, Capacity;
    Published();
    Distinct();
    if ItemAt(s, region, k).Some? {
      ParentBit(s, ItemAt(s, region, k).value + 4);
    }
  }

  lemma {:induction false} ItemsFold(s: Source, region: nat, lo: nat, n: nat, known: V.Metadata)
    requires lo <= n
    ensures V.ItemsFrom(s, region, lo, n, known).Some? <==> forall k :: lo <= k < n ==> ItemReadable(s, region, k)
    ensures V.ItemsFrom(s, region, lo, n, known).Some? ==>
      LastItems(s, region, lo, n, known, V.ItemsFrom(s, region, lo, n, known).value)
    decreases n - lo
  {
    hide ItemReadable, V.NoteItem, LastItems;
    if lo < n {
      ItemNoted(s, region, lo, known);
      if V.NoteItem(s, region, lo, known).Some? {
        var next := V.NoteItem(s, region, lo, known).value;
        ItemsFold(s, region, lo + 1, n, next);
        if V.ItemsFrom(s, region, lo, n, known).Some? {
          ItemCounts(s, region, lo, n, known, next, V.ItemsFrom(s, region, lo, n, known).value);
        }
      }
    } else {
      NoItems(s, region, lo, known);
    }
  }

  ghost predicate LastItems(s: Source, region: nat, lo: nat, n: nat, known: V.Metadata, r: V.Metadata) {
    && LastCounts(s, region + 32, lo, n, FileParametersGuid(), (k: nat) => ParametersOf(s, region, k),
                  (known.blockSize, known.hasParent), (r.blockSize, r.hasParent))
    && LastCounts(s, region + 32, lo, n, VirtualDiskSizeGuid(), (k: nat) => ItemNumber(s, region, k, 8),
                  known.virtualSize, r.virtualSize)
    && LastCounts(s, region + 32, lo, n, LogicalSectorSizeGuid(), (k: nat) => ItemNumber(s, region, k, 4),
                  known.sectorSize, r.sectorSize)
  }

  lemma NoItems(s: Source, region: nat, lo: nat, known: V.Metadata)
    ensures LastItems(s, region, lo, lo, known, known)
  {
  }

  lemma ItemCounts(s: Source, region: nat, lo: nat, n: nat, known: V.Metadata, next: V.Metadata, r: V.Metadata)
    requires lo < n && LastItems(s, region, lo + 1, n, next, r) && V.NoteItem(s, region, lo, known) == Some(next)
    ensures LastItems(s, region, lo, n, known, r)
  {
    hide Named, V.NoteItem, FileParametersGuid, VirtualDiskSizeGuid, LogicalSectorSizeGuid, ItemNumber, ParametersOf,
      ItemReadable;
    ItemNoted(s, region, lo, known);
    EntryCounts(s, region + 32, lo, n, FileParametersGuid(), (k: nat) => ParametersOf(s, region, k),
                (known.blockSize, known.hasParent), (next.blockSize, next.hasParent), (r.blockSize, r.hasParent));
    EntryCounts(s, region + 32, lo, n, VirtualDiskSizeGuid(), (k: nat) => ItemNumber(s, region, k, 8),
                known.virtualSize, next.virtualSize, r.virtualSize);
    EntryCounts(s, region + 32, lo, n, LogicalSectorSizeGuid(), (k: nat) => ItemNumber(s, region, k, 4),
                known.sectorSize, next.sectorSize, r.sectorSize);
  }

  /** A readable metadata table of at most 2047 entries. */
  ghost predicate MetadataTableAt(s: Source, region: nat, n: nat) {
    && Stored(s, region, Ascii("metadata")) && n <= 2047 && LittleEndianAt(s, region + 10, 2) == Some(n)
    && forall k :: 0 <= k < n ==> ItemReadable(s, region, k)
  }

  /** The last entries of the three kinds give these parameters. */
  ghost predicate ParametersAt(s: Source, region: nat, n: nat, p: V.Parameters) {
    && (exists k: nat :: IsLast(s, region + 32, 0, n, FileParametersGuid(), k) &&
                         ParametersOf(s, region, k) == (Some(p.blockSize), p.hasParent))
    && (exists k: nat :: IsLast(s, region + 32, 0, n, VirtualDiskSizeGuid(), k) &&
                         ItemNumber(s, region, k, 8) == Some(p.virtualSize))
    && (exists k: nat :: IsLast(s, region + 32, 0, n, LogicalSectorSizeGuid(), k) &&
                         ItemNumber(s, region, k, 4) == Some(p.sectorSize))
  }

  /** The metadata region yields exactly the parameters that the last entries of the three kinds give. */
  lemma MetadataExact(s: Source, region: nat, p: V.Parameters)
    ensures V.MetadataRegion(s, region) == Ok(p) <==>
      exists n: nat :: MetadataTableAt(s, region, n) && ParametersAt(s, region, n, p)
  {
    hide LittleEndianAt, BytesAt, ItemReadable, V.ItemsFrom, Ascii, ParametersAt, LastItems;
    Signatures();
    if LittleEndianAt(s, region + 10, 2).Some? {
      var n := LittleEndianAt(s, region + 10, 2).value;
      var none := V.Metadata(None, None, None, false);
      ItemsFold(s, region, 0, n, none);
      if V.ItemsFrom(s, region, 0, n, none).Some? {
        ParametersGiven(s, region, n, V.ItemsFrom(s, region, 0, n, none).value, p);
      }
    }
  }

  lemma ParametersGiven(s: Source, region: nat, n: nat, r: V.Metadata, p: V.Parameters)
    requires LastItems(s, region, 0, n, V.Metadata(None, None, None, false), r)
    ensures r == V.Metadata(Some(p.blockSize), Some(p.virtualSize), Some(p.sectorSize), p.hasParent) <==>
            ParametersAt(s, region, n, p)
  {
    hide Named, ItemNumber, ParametersOf, FileParametersGuid, VirtualDiskSizeGuid, LogicalSectorSizeGuid;
    LastOrAbsent(s, region + 32, 0, n, FileParametersGuid());
    LastOrAbsent(s, region + 32, 0, n, VirtualDiskSizeGuid());
    LastOrAbsent(s, region + 32, 0, n, LogicalSectorSizeGuid());
  }

  // ----- open

  /** A container opens exactly when it has its identifier, both regions, the parameters, no parent, a block of
      1 to 256 MiB and a sector size; the ratio is the number of blocks a bitmap block covers. */
  ghost predicate Spelled(s: Source, bat: u64, metadata: u64, p: V.Parameters, ratio: u64) {
    && Stored(s, 0, Ascii("vhdxfile"))
    && V.RegionTable(s) == Ok((bat, metadata)) && V.MetadataRegion(s, metadata) == Ok(p)
    && !p.hasParent && 0x10_0000 <= p.blockSize <= 0x1000_0000 && p.sectorSize > 0
    && V.BitmapCovers(ratio, p.sectorSize, p.blockSize)
  }

  lemma VhdxAccepted(s: Source)
    ensures V.Header(s).Ok? <==>
      exists bat: u64, metadata: u64, p: V.Parameters, ratio: u64 :: Spelled(s, bat, metadata, p, ratio)
    ensures forall bat: u64, metadata: u64, p: V.Parameters, ratio: u64 :: Spelled(s, bat, metadata, p, ratio) ==>
      V.Header(s) == Ok(Disk(s, Vhdx(bat, p.blockSize, ratio), p.virtualSize))
  {
    hide V.RegionTable, V.MetadataRegion, BytesAt, Ascii, V.BitmapCovers;
    Signatures();
    forall bat: u64, metadata: u64, p: V.Parameters, ratio: u64 | Spelled(s, bat, metadata, p, ratio)
      ensures V.Header(s) == Ok(Disk(s, Vhdx(bat, p.blockSize, ratio), p.virtualSize))
    {
      V.OneRatio(ratio, V.ChunkRatio(p.sectorSize, p.blockSize), p.sectorSize, p.blockSize);
    }
    if V.Header(s).Ok? {
      var regions := V.RegionTable(s).value;
      var p := V.MetadataRegion(s, regions.1).value;
      assert Spelled(s, regions.0, regions.1, p, V.ChunkRatio(p.sectorSize, p.blockSize));
    }
  }

  /** A container is called unsupported exactly when it reads in full and names a parent. */
  lemma VhdxUnsupported(s: Source)
    ensures V.Header(s) == Err(NotSupported) <==>
      && Stored(s, 0, Ascii("vhdxfile"))
      && exists bat: u64, metadata: u64, p: V.Parameters ::
           V.RegionTable(s) == Ok((bat, metadata)) && V.MetadataRegion(s, metadata) == Ok(p) && p.hasParent
  {
    hide V.RegionsFrom, V.ItemsFrom, BytesAt, LittleEndianAt, Ascii;
    Signatures();
  }
}
