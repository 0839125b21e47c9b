/** The fixed and dynamic VHDX reader's `open`, the interleaved block allocation table, a writer of images
    and the round trip. */
module VhdxImages {
  import opened Bytes
  import opened Sources
  import opened ImageParts
  import opened Refusals

  const REGION_TABLE: nat := 0x30000

  const FILE_ID: seq<byte> := [0x76, 0x68, 0x64, 0x78, 0x66, 0x69, 0x6c, 0x65]
  const REGI: seq<byte> := [0x72, 0x65, 0x67, 0x69]
  const METADATA: seq<byte> := [0x6d, 0x65, 0x74, 0x61, 0x64, 0x61, 0x74, 0x61]

  const BAT_REGION: seq<byte> :=
    [0x66, 0x77, 0xc2, 0x2d, 0x23, 0xf6, 0x00, 0x42, 0x9d, 0x64, 0x11, 0x5e, 0x9b, 0xfd, 0x4a, 0x08]
  const METADATA_REGION: seq<byte> :=
    [0x06, 0xa2, 0x7c, 0x8b, 0x90, 0x47, 0x9a, 0x4b, 0xb8, 0xfe, 0x57, 0x5f, 0x05, 0x0f, 0x88, 0x6e]
  const FILE_PARAMETERS: seq<byte> :=
    [0x37, 0x67, 0xa1, 0xca, 0x36, 0xfa, 0x43, 0x4d, 0xb3, 0xb6, 0x33, 0xf0, 0xaa, 0x44, 0xe7, 0x6b]
  const VIRTUAL_DISK_SIZE: seq<byte> :=
    [0x24, 0x42, 0xa5, 0x2f, 0x1b, 0xcd, 0x76, 0x48, 0xb2, 0x11, 0x5d, 0xbe, 0xd8, 0x3b, 0xf4, 0xb8]
  const LOGICAL_SECTOR_SIZE: seq<byte> :=
    [0x1d, 0xbf, 0x41, 0x81, 0x6f, 0xa9, 0x09, 0x47, 0xba, 0x47, 0xf2, 0x33, 0xa8, 0xfa, 0xab, 0x5f]

  // ----- region table

  datatype Regions = Regions(bat: Option<u64>, metadata: Option<u64>)

  function NoteRegion(known: Regions, guid: seq<byte>, offset: u64): Regions {
    if guid == BAT_REGION then known.(bat := Some(offset))
    else if guid == METADATA_REGION then known.(metadata := Some(offset))
    else known
  }

  /** What entry `i` of the region table adds; None when it cannot be read. */
  ghost function RegionEntry(s: Source, i: nat, known: Regions): Option<Regions> {
    var entry := REGION_TABLE + 16 + i * 32;
    match BytesAt(s, entry, 16) case None => None case Some(guid) =>
    match LittleEndianAt(s, entry + 16, 8) case None => None case Some(offset) =>
    NumberRange(s, entry + 16, 8);
    Some(NoteRegion(known, guid, offset))
  }

  ghost function RegionsFrom(s: Source, i: nat, count: nat, known: Regions): Option<Regions>
    decreases count - i
  {
    if i >= count then Some(known) else
    match RegionEntry(s, i, known) case None => None case Some(next) => RegionsFrom(s, i + 1, count, next)
  }

  ghost function RegionTable(s: Source): Result<(u64, u64), Refusal> {
    match BytesAt(s, REGION_TABLE, 4) case None => Err(Unreadable) case Some(signature) =>
    if signature != REGI then Err(NotValid) else
    match LittleEndianAt(s, REGION_TABLE + 8, 4) case None => Err(Unreadable) case Some(count) =>
    if count > 2047 then Err(NotValid) else
    match RegionsFrom(s, 0, count, Regions(None, None)) case None => Err(Unreadable) case Some(regions) =>
    if regions.bat.Some? && regions.metadata.Some? then Ok((regions.bat.value, regions.metadata.value))
    else Err(NotValid)
  }

  method ReadRegion(s: Source, i: nat, known: Regions) returns (r: Result<Regions, SourceError>)
    requires s.Valid() && i < 2047
    ensures r.Ok? <==> RegionEntry(s, i, known).Some?
    ensures r.Ok? ==> r.value == RegionEntry(s, i, known).value
  {
    Capacities();
    var entry := REGION_TABLE + 16 + i * 32;
    var guid := ReadBytes(s, entry, 16);
    if guid.Err? { return Err(guid.error); }
    var offset := ReadLE(s, entry + 16, 8);
    if offset.Err? { return Err(offset.error); }
    return Ok(NoteRegion(known, guid.value, offset.value));
  }

  method ReadRegionTable(s: Source) returns (r: Result<(u64, u64), SourceError>)
    requires s.Valid()
    ensures Matches(r, RegionTable(s))
  {
    hide BytesAt, LittleEndianAt;
    Capacities();
    var signature := ReadBytes(s, REGION_TABLE, 4);
    if signature.Err? { return Err(signature.error); }
    if signature.value != REGI { return Err(Malformed); }
    var count := ReadLE(s, REGION_TABLE + 8, 4);
    if count.Err? { return Err(count.error); }
    if count.value > 2047 { return Err(Malformed); }
    var known := Regions(None, None);
    var i := 0;
    while i < count.value
      invariant 0 <= i <= count.value
      invariant RegionsFrom(s, i, count.value, known) == RegionsFrom(s, 0, count.value, Regions(None, None))
    {
      var next := ReadRegion(s, i, known);
      if next.Err? { return Err(next.error); }
      known := next.value;
      i := i + 1;
    }
    if known.bat.Some? && known.metadata.Some? {
      return Ok((known.bat.value, known.metadata.value));
    }
    return Err(Malformed);
  }

  // ----- metadata

  datatype Metadata = Metadata(blockSize: Option<u32>, virtualSize: Option<u64>, sectorSize: Option<u32>,
                               hasParent: bool)

  datatype Parameters = Parameters(blockSize: u32, virtualSize: u64, sectorSize: u32, hasParent: bool)

  /** What entry `i` of the metadata table adds; None when it, or the item it names, cannot be read. */
  ghost function NoteItem(s: Source, region: nat, i: nat, known: Metadata): Option<Metadata> {
    var entry := region + 32 + i * 32;
    match BytesAt(s, entry, 16) case None => None case Some(guid) =>
    match LittleEndianAt(s, entry + 16, 4) case None => None case Some(offset) =>
    var item := region + offset;
    if guid == FILE_PARAMETERS then
      match LittleEndianAt(s, item, 4) case None => None case Some(blockSize) =>
      match LittleEndianAt(s, item + 4, 4) case None => None case Some(flags) =>
      NumberRange(s, item, 4);
      Some(known.(blockSize := Some(blockSize), hasParent := flags / 2 % 2 == 1))
    else if guid == VIRTUAL_DISK_SIZE then
      match LittleEndianAt(s, item, 8) case None => None case Some(size) =>
      NumberRange(s, item, 8);
      Some(known.(virtualSize := Some(size)))
    else if guid == LOGICAL_SECTOR_SIZE then
      match LittleEndianAt(s, item, 4) case None => None case Some(size) =>
      NumberRange(s, item, 4);
      Some(known.(sectorSize := Some(size)))
    else Some(known)
  }

  ghost function ItemsFrom(s: Source, region: nat, i: nat, count: nat, known: Metadata): Option<Metadata>
    decreases count - i
  {
    if i >= count then Some(known) else
    match NoteItem(s, region, i, known) case None => None case Some(next) => ItemsFrom(s, region, i + 1, count, next)
  }

  ghost function MetadataRegion(s: Source, region: nat): Result<Parameters, Refusal> {
    match BytesAt(s, region, 8) case None => Err(Unreadable) case Some(signature) =>
    if signature != METADATA then Err(NotValid) else
    match LittleEndianAt(s, region + 10, 2) case None => Err(Unreadable) case Some(count) =>
    if count > 2047 then Err(NotValid) else
    match ItemsFrom(s, region, 0, count, Metadata(None, None, None, false)) case None => Err(Unreadable)
    case Some(meta) =>
    if meta.blockSize.Some? && meta.virtualSize.Some? && meta.sectorSize.Some? then
      Ok(Parameters(meta.blockSize.value, meta.virtualSize.value, meta.sectorSize.value, meta.hasParent))
    else Err(NotValid)
  }

  /** Positions in the metadata region are added without a check: the container must end 2^32 and the
      table below 2^64. */
  const REGION_REACH: nat := 0x1_0002_0000

  method ReadItem(s: Source, region: u64, i: nat, known: Metadata) returns (r: Result<Metadata, SourceError>)
    requires s.Valid() && region <= s.Size() && s.Size() + REGION_REACH <= U64_LIMIT && i < 2047
    ensures r.Ok? <==> NoteItem(s, region, i, known).Some?
    ensures r.Ok? ==> r.value == NoteItem(s, region, i, known).value
  {
    Capacities();
    var entry := region + 32 + i * 32;
    var guid := ReadBytes(s, entry, 16);
    if guid.Err? { return Err(guid.error); }
    var offset := ReadLE(s, entry + 16, 4);
    if offset.Err? { return Err(offset.error); }
    var item: u64 := region + offset.value;
    if guid.value == FILE_PARAMETERS {
      var blockSize := ReadLE(s, item, 4);
      if blockSize.Err? { return Err(blockSize.error); }
      var flags := ReadLE(s, item + 4, 4);
      if flags.Err? { return Err(flags.error); }
      return Ok(known.(blockSize := Some(blockSize.value), hasParent := flags.value / 2 % 2 == 1));
    } else if guid.value == VIRTUAL_DISK_SIZE {
      var size := ReadLE(s, item, 8);
      if size.Err? { return Err(size.error); }
      return Ok(known.(virtualSize := Some(size.value)));
    } else if guid.value == LOGICAL_SECTOR_SIZE {
      var size := ReadLE(s, item, 4);
      if size.Err? { return Err(size.error); }
      return Ok(known.(sectorSize := Some(size.value)));
    }
    return Ok(known);
  }

  method ReadMetadataRegion(s: Source, region: u64) returns (r: Result<Parameters, SourceError>)
    requires s.Valid() && s.Size() + REGION_REACH <= U64_LIMIT
    ensures Matches(r, MetadataRegion(s, region))
  {
    Capacities();
    var signature := ReadBytes(s, region, 8);
    if signature.Err? { return Err(signature.error); }
    assert ByteAt(s, region + 7).Some?;
    if signature.value != METADATA { return Err(Malformed); }
    var count := ReadLE(s, region + 10, 2);
    if count.Err? { return Err(count.error); }
    if count.value > 2047 { return Err(Malformed); }
    var known := Metadata(None, None, None, false);
    var i := 0;
    while i < count.value
      invariant 0 <= i <= count.value
      invariant ItemsFrom(s, region, i, count.value, known) ==
                ItemsFrom(s, region, 0, count.value, Metadata(None, None, None, false))
    {
      var next := ReadItem(s, region, i, known);
      if next.Err? { return Err(next.error); }
      known := next.value;
      i := i + 1;
    }
    if known.blockSize.Some? && known.virtualSize.Some? && known.sectorSize.Some? {
      return Ok(Parameters(known.blockSize.value, known.virtualSize.value, known.sectorSize.value, known.hasParent));
    }
    return Err(Malformed);
  }

  // ----- open

  /** Section 2.5 of [MS-VHDX]: a sector bitmap block is 1 MiB, one bit a sector, and follows the payload
      blocks whose sectors it has bits for, at least one. */
  ghost predicate BitmapCovers(ratio: nat, sectorSize: nat, blockSize: nat) {
    var covered := 8 * 0x10_0000 * sectorSize;
    || (ratio >= 1 && ratio * blockSize <= covered < (ratio + 1) * blockSize)
    || (ratio == 1 && covered < blockSize)
  }

  /** There is only one such number of blocks. */
  lemma OneRatio(a: nat, b: nat, sectorSize: nat, blockSize: nat)
    requires blockSize > 0 && BitmapCovers(a, sectorSize, blockSize) && BitmapCovers(b, sectorSize, blockSize)
    ensures a == b
  {
    if a < b {
      MulMonotone(a + 1, b, blockSize);
    } else if b < a {
      MulMonotone(b + 1, a, blockSize);
    }
  }

  function ChunkRatio(sectorSize: u32, blockSize: u32): (r: u64)
    requires blockSize > 0
    ensures r >= 1 && BitmapCovers(r, sectorSize, blockSize)
  {
    Shrinks(8_388_608 * sectorSize, blockSize);
    RatioCovers(8_388_608 * sectorSize, blockSize);
    Max(8_388_608 * sectorSize / blockSize, 1)
  }

  lemma RatioCovers(n: nat, d: nat)
    requires d > 0
    ensures var r := Max(n / d, 1);
      r * d <= n < (r + 1) * d || (r == 1 && n < d)
  {
    var q, m := Split(n, d);
    assert (q + 1) * d == q * d + d;
  }

  lemma Shrinks(n: nat, d: nat)
    requires d > 0
    ensures 0 <= n / d <= n
  {
    if n / d > n {
      MulMonotone(n + 1, n / d, d);
      MulMonotone(1, d, n + 1);
    }
  }

  ghost function Header(s: Source): Result<Source, Refusal> {
    match BytesAt(s, 0, 8) case None => Err(Unreadable) case Some(id) =>
    if id != FILE_ID then Err(NotValid) else
    match RegionTable(s) case Err(e) => Err(e) case Ok(regions) =>
    match MetadataRegion(s, regions.1) case Err(e) => Err(e) case Ok(p) =>
    if p.hasParent then Err(NotSupported)
    else if !(0x10_0000 <= p.blockSize <= 0x1000_0000) || p.sectorSize == 0 then Err(NotValid)
    else Ok(Disk(s, Vhdx(regions.0, p.blockSize, ChunkRatio(p.sectorSize, p.blockSize)), p.virtualSize))
  }

  method Open(s: Source) returns (r: Result<Source, SourceError>)
    requires s.Valid() && s.Size() + REGION_REACH <= U64_LIMIT
    ensures Matches(r, Header(s))
    ensures r.Ok? ==> r.value.Valid()
  {
    var id := ReadBytes(s, 0, 8);
    if id.Err? { return Err(id.error); }
    if id.value != FILE_ID { return Err(Malformed); }
    var regions := ReadRegionTable(s);
    if regions.Err? { return Err(regions.error); }
    var meta := ReadMetadataRegion(s, regions.value.1);
    if meta.Err? { return Err(meta.error); }
    var p := meta.value;
    if p.hasParent { return Err(Unsupported); }
    if !(0x10_0000 <= p.blockSize <= 0x1000_0000) || p.sectorSize == 0 { return Err(Malformed); }
    return Ok(Disk(s, Vhdx(regions.value.0, p.blockSize, ChunkRatio(p.sectorSize, p.blockSize)), p.virtualSize));
  }

  // ----- the interleaved block allocation table

  /** The payload block a table slot holds, when it is not a sector bitmap slot. */
  function PayloadBlock(chunkRatio: nat, index: nat): nat
    requires chunkRatio > 0
  {
    SlotShape(chunkRatio, index);
    index - index / (chunkRatio + 1)
  }

  predicate PayloadSlot(chunkRatio: nat, index: nat) {
    index % (chunkRatio + 1) != chunkRatio
  }

  lemma SlotShape(chunkRatio: nat, index: nat)
    requires chunkRatio > 0
    ensures 0 <= index / (chunkRatio + 1) <= index
  {
  }

  /** `block` is block `r` of chunk `q` exactly when its slot is slot `r` of group `q`. */
  lemma GroupOf(chunkRatio: nat, block: nat)
    requires chunkRatio > 0
    ensures var q, r := block / chunkRatio, block % chunkRatio;
      && BatIndex(chunkRatio, block) == q * (chunkRatio + 1) + r
      && BatIndex(chunkRatio, block) / (chunkRatio + 1) == q
      && BatIndex(chunkRatio, block) % (chunkRatio + 1) == r
  {
    var q, r := Split(block, chunkRatio);
    assert q * (chunkRatio + 1) == q * chunkRatio + q;
    DivModUnique(BatIndex(chunkRatio, block), chunkRatio + 1, q, r);
  }

  /** Distinct blocks never share a slot, and slots follow block order. */
  lemma InterleaveIncreases(chunkRatio: nat, a: nat, b: nat)
    requires chunkRatio > 0 && a < b
    ensures BatIndex(chunkRatio, a) < BatIndex(chunkRatio, b)
  {
    DivMonotone(a, b, chunkRatio);
  }

  lemma DivMonotone(a: nat, b: nat, d: nat)
    requires d > 0 && a <= b
    ensures a / d <= b / d
  {
    if b / d < a / d {
      MulMonotone(b / d + 1, a / d, d);
      Sums(b / d, 1, d);
    }
  }

  /** The slots of payload blocks are exactly the ones that are not the last of a group of
      `chunkRatio + 1`, and each such slot holds one block: the interleave is a bijection. */
  lemma InterleaveBijection(chunkRatio: nat, index: nat)
    requires chunkRatio > 0
    ensures PayloadSlot(chunkRatio, index) <==> exists block: nat :: BatIndex(chunkRatio, block) == index
    ensures PayloadSlot(chunkRatio, index) ==> BatIndex(chunkRatio, PayloadBlock(chunkRatio, index)) == index
  {
    if PayloadSlot(chunkRatio, index) {
      var q, r := Split(index, chunkRatio + 1);
      SlotShape(chunkRatio, index);
      var block := index - q;
      assert q * (chunkRatio + 1) == q * chunkRatio + q;
      DivModUnique(block, chunkRatio, q, r);
      assert BatIndex(chunkRatio, block) == index;
    }
    if block: nat :| BatIndex(chunkRatio, block) == index {
      GroupOf(chunkRatio, block);
    }
  }

  lemma InterleaveInverse(chunkRatio: nat, block: nat)
    requires chunkRatio > 0
    ensures PayloadSlot(chunkRatio, BatIndex(chunkRatio, block))
    ensures PayloadBlock(chunkRatio, BatIndex(chunkRatio, block)) == block
  {
    GroupOf(chunkRatio, block);
  }

  /** Section 2.5 of [MS-VHDX]: a dynamic disk of `n` blocks needs `n + floor((n - 1) / chunkRatio)`
      entries, and its last block takes the last of them. */
  lemma EntryCount(chunkRatio: nat, n: nat)
    requires chunkRatio > 0 && n >= 1
    ensures BatIndex(chunkRatio, n - 1) + 1 == n + (n - 1) / chunkRatio
    ensures forall block :: 0 <= block < n ==> BatIndex(chunkRatio, block) < n + (n - 1) / chunkRatio
    ensures forall block :: n <= block ==> BatIndex(chunkRatio, block) >= n + (n - 1) / chunkRatio
  {
    forall block | 0 <= block < n
      ensures BatIndex(chunkRatio, block) < n + (n - 1) / chunkRatio
    {
      DivMonotone(block, n - 1, chunkRatio);
    }
    forall block | n <= block
      ensures BatIndex(chunkRatio, block) >= n + (n - 1) / chunkRatio
    {
      DivMonotone(n - 1, block, chunkRatio);
    }
  }

  // ----- a writer

  const MIB: nat := 0x10_0000

  /** Where the writer puts the metadata region, its items, and the table. */
  const META_AT: nat := 0x10_0000
  const BAT_AT: nat := 0x20_0000

  /** Choices a writer makes: the block size in MiB, the logical sector size and the number of payload blocks
      to a bitmap block that follows from them, the MiB given to the block allocation table,
      which blocks are present and in which order their data lies. */
  datatype Choice = Choice(blockMib: nat, sectorSize: u32, ratio: u64, batMib: nat, order: seq<nat>)
  {
    function Block(): nat { 0x10_0000 * blockMib }

    function Slots(): nat { 0x2_0000 * batMib }

    /** MiB at which present block `k` of the file starts. */
    function BlockMib(k: nat): nat { 2 + batMib + k * blockMib }

    ghost predicate Laid() {
      && 1 <= blockMib <= 256 && sectorSize > 0
      && BitmapCovers(ratio, sectorSize, Block())
      && 0x10_0000 * BlockMib(|order|) < U64_LIMIT
    }

    /** The table has a slot for every block of the disk, and the listed blocks cover its data. */
    ghost predicate Fits(disk: seq<byte>, count: nat) {
      && Laid()
      && |disk| < U64_LIMIT && |disk| <= count * Block()
      && (forall g :: 0 <= g < count ==> BatIndex(ratio, g) < Slots())
      && Covers(order, disk, Block())
    }
  }

  function FrontByte(c: Choice, size: nat, i: nat): byte {
    if i < 8 then FILE_ID[i]
    else if i < META_AT then RegionByte(i)
    else MetadataByte(c, size, i - META_AT)
  }

  function RegionByte(i: nat): byte {
    var o := i - REGION_TABLE;
    if 0 <= o < 4 then REGI[o]
    else if 8 <= o < 12 then ToLE(2, 4)[o - 8]
    else if 16 <= o < 32 then BAT_REGION[o - 16]
    else if 32 <= o < 40 then ToLE(BAT_AT, 8)[o - 32]
    else if 48 <= o < 64 then METADATA_REGION[o - 48]
    else if 64 <= o < 72 then ToLE(META_AT, 8)[o - 64]
    else 0
  }

  function MetadataByte(c: Choice, size: nat, o: nat): byte {
    if o < 8 then METADATA[o]
    else if 10 <= o < 12 then ToLE(3, 2)[o - 10]
    else if 32 <= o < 48 then FILE_PARAMETERS[o - 32]
    else if 48 <= o < 52 then ToLE(0x1_0000, 4)[o - 48]
    else if 64 <= o < 80 then VIRTUAL_DISK_SIZE[o - 64]
    else if 80 <= o < 84 then ToLE(0x1_0008, 4)[o - 80]
    else if 96 <= o < 112 then LOGICAL_SECTOR_SIZE[o - 96]
    else if 112 <= o < 116 then ToLE(0x1_0010, 4)[o - 112]
    else if 0x1_0000 <= o < 0x1_0004 then ToLE(c.Block(), 4)[o - 0x1_0000]
    else if 0x1_0008 <= o < 0x1_0010 then ToLE(size, 8)[o - 0x1_0008]
    else if 0x1_0010 <= o < 0x1_0014 then ToLE(c.sectorSize, 4)[o - 0x1_0010]
    else 0
  }

  function FrontBytes(c: Choice, size: nat): seq<byte> {
    seq(BAT_AT, i requires 0 <= i => FrontByte(c, size, i))
  }

  function BlockEntry(c: Choice, g: nat): nat {
    if g in c.order then MIB * c.BlockMib(IndexOf(c.order, g)) + 6 else 0
  }

  ghost function Bat(c: Choice): seq<nat>
    requires c.Laid()
  {
    seq(c.Slots(), i requires 0 <= i =>
      if PayloadSlot(c.ratio, i) then BlockEntry(c, PayloadBlock(c.ratio, i)) else 0)
  }

  ghost function Front(c: Choice, size: nat): seq<byte>
    requires c.Laid()
  {
    FrontBytes(c, size) + Table(Bat(c), 8, false)
  }

  ghost function Image(c: Choice, disk: seq<byte>): seq<byte>
    requires c.Laid()
  {
    Front(c, |disk|) + Spread(disk, c.order, c.Block())
  }

  // ----- round trip

  ghost predicate Starts(image: seq<byte>, c: Choice, size: nat) {
    |image| >= BAT_AT && forall i :: 0 <= i < BAT_AT ==> image[i] == FrontByte(c, size, i)
  }

  lemma HeldBytes(s: Source, image: seq<byte>, at: nat, field: seq<byte>)
    requires Holds(s, image) && at + |field| <= |image| && image[at..at + |field|] == field
    ensures BytesAt(s, at, |field|) == Some(field)
  {
    HeldSlice(s, image, at, |field|);
  }

  lemma RegionsRead(s: Source, image: seq<byte>, c: Choice, size: u64)
    requires Holds(s, image) && Starts(image, c, size)
    ensures RegionTable(s) == Ok((BAT_AT, META_AT))
  {
    Capacities();
    HeldBytes(s, image, REGION_TABLE, REGI);
    HeldField(s, image, REGION_TABLE + 8, 2, 4, false);
    HeldBytes(s, image, REGION_TABLE + 16, BAT_REGION);
    HeldField(s, image, REGION_TABLE + 32, BAT_AT, 8, false);
    HeldBytes(s, image, REGION_TABLE + 48, METADATA_REGION);
    HeldField(s, image, REGION_TABLE + 64, META_AT, 8, false);
    var none := Regions(None, None);
    var first := Regions(Some(BAT_AT), None);
    assert RegionEntry(s, 0, none) == Some(first);
    assert RegionEntry(s, 1, first) == Some(Regions(Some(BAT_AT), Some(META_AT)));
    assert RegionsFrom(s, 0, 2, none) == RegionsFrom(s, 1, 2, first);
  }

  lemma MetadataRead(s: Source, image: seq<byte>, c: Choice, size: u64)
    requires Holds(s, image) && Starts(image, c, size) && c.Block() < U32_LIMIT
    ensures MetadataRegion(s, META_AT) == Ok(Parameters(c.Block(), size, c.sectorSize, false))
  {
    Capacities();
    HeldBytes(s, image, META_AT, METADATA);
    HeldField(s, image, META_AT + 10, 3, 2, false);
    var m0 := Metadata(None, None, None, false);
    var m1 := m0.(blockSize := Some(c.Block()));
    var m2 := m1.(virtualSize := Some(size));
    var m3 := m2.(sectorSize := Some(c.sectorSize));
    FirstItem(s, image, c, size, m0);
    SecondItem(s, image, c, size, m1);
    ThirdItem(s, image, c, size, m2);
    assert ItemsFrom(s, META_AT, 2, 3, m2) == Some(m3);
    assert ItemsFrom(s, META_AT, 1, 3, m1) == Some(m3);
    assert ItemsFrom(s, META_AT, 0, 3, m0) == Some(m3);
  }

  lemma FirstItem(s: Source, image: seq<byte>, c: Choice, size: u64, m: Metadata)
    requires Holds(s, image) && Starts(image, c, size) && c.Block() < U32_LIMIT
    ensures NoteItem(s, META_AT, 0, m) == Some(m.(blockSize := Some(c.Block()), hasParent := false))
  {
    Capacities();
    Zeros(4);
    HeldBytes(s, image, META_AT + 32, FILE_PARAMETERS);
    HeldField(s, image, META_AT + 48, 0x1_0000, 4, false);
    HeldField(s, image, META_AT + 0x1_0000, c.Block(), 4, false);
    HeldField(s, image, META_AT + 0x1_0004, 0, 4, false);
  }

  lemma SecondItem(s: Source, image: seq<byte>, c: Choice, size: u64, m: Metadata)
    requires Holds(s, image) && Starts(image, c, size)
    ensures NoteItem(s, META_AT, 1, m) == Some(m.(virtualSize := Some(size)))
  {
    Capacities();
    HeldBytes(s, image, META_AT + 64, VIRTUAL_DISK_SIZE);
    HeldField(s, image, META_AT + 80, 0x1_0008, 4, false);
    HeldField(s, image, META_AT + 0x1_0008, size, 8, false);
  }

  lemma ThirdItem(s: Source, image: seq<byte>, c: Choice, size: u64, m: Metadata)
    requires Holds(s, image) && Starts(image, c, size)
    ensures NoteItem(s, META_AT, 2, m) == Some(m.(sectorSize := Some(c.sectorSize)))
  {
    Capacities();
    HeldBytes(s, image, META_AT + 96, LOGICAL_SECTOR_SIZE);
    HeldField(s, image, META_AT + 112, 0x1_0010, 4, false);
    HeldField(s, image, META_AT + 0x1_0010, c.sectorSize, 4, false);
  }

  lemma HeaderReads(s: Source, c: Choice, size: u64, image: seq<byte>)
    requires Holds(s, image) && Starts(image, c, size) && c.Laid()
    ensures Header(s) == Ok(Disk(s, Vhdx(BAT_AT, c.Block(), c.ratio), size))
  {
    OneRatio(ChunkRatio(c.sectorSize, c.Block()), c.ratio, c.sectorSize, c.Block());
    HeldBytes(s, image, 0, FILE_ID);
    RegionsRead(s, image, c, size);
    MetadataRead(s, image, c, size);
  }

  lemma FrontSize(c: Choice, size: nat)
    requires c.Laid()
    ensures |Front(c, size)| == MIB * c.BlockMib(0)
  {
  }

  lemma BlockPlace(c: Choice, size: nat, g: nat)
    requires c.Laid()
    ensures BlockEntry(c, g) < U64_LIMIT
    ensures (if BlockEntry(c, g) % 8 != 6 then Hole else At(VhdxOffset(BlockEntry(c, g)))) ==
            Placed(c.order, |Front(c, size)|, c.Block(), g)
  {
    hide Front, IndexOf;
    FrontSize(c, size);
    if g in c.order {
      var k := IndexOf(c.order, g);
      MulMonotone(k, |c.order|, c.blockMib);
      BlockBytes(k, c.blockMib);
      PresentEntry(c.BlockMib(k));
    }
  }

  lemma BlockBytes(k: nat, blockMib: nat)
    ensures k * (0x10_0000 * blockMib) == 0x10_0000 * (k * blockMib)
  {
  }

  lemma PresentEntry(mib: nat)
    ensures VhdxOffset(MIB * mib + 6) == MIB * mib && (MIB * mib + 6) % 8 == 6
  {
  }

  /** The interleaved lookup finds each present block where the writer put it, and a hole elsewhere. */
  lemma BlockFound(s: Source, c: Choice, disk: seq<byte>, g: nat)
    requires c.Laid() && Holds(s, Image(c, disk)) && BatIndex(c.ratio, g) < c.Slots()
    ensures LocateBlock(s, BAT_AT, BatIndex(c.ratio, g)) == Placed(c.order, |Front(c, |disk|)|, c.Block(), g)
  {
    Capacities();
    var index := BatIndex(c.ratio, g);
    InterleaveInverse(c.ratio, g);
    BlockPlace(c, |disk|, g);
    assert Bat(c)[index] == BlockEntry(c, g);
    HeldEntry(s, FrontBytes(c, |disk|), Bat(c), Spread(disk, c.order, c.Block()), 8, false, index);
  }

  /** Writing any disk with any choice of layout and opening the result, wherever in a stack it is
      stored, gives back the disk: same size, same byte everywhere. */
  lemma RoundTrip(s: Source, c: Choice, disk: seq<byte>, count: nat)
    requires c.Fits(disk, count) && Holds(s, Image(c, disk))
    ensures Header(s).Ok? && Holds(Header(s).value, disk)
  {
    var image := Image(c, disk);
    assert Starts(image, c, |disk|);
    HeaderReads(s, c, |disk|, image);
    OneRatio(ChunkRatio(c.sectorSize, c.Block()), c.ratio, c.sectorSize, c.Block());
    var unit: u32, ratio: u64 := c.Block(), c.ratio;
    var layout := Vhdx(BAT_AT, unit, ratio);
    forall g | 0 <= g < count
      ensures Locate(s, layout, g) == Placed(c.order, |Front(c, |disk|)|, unit, g)
    {
      BlockFound(s, c, disk, g);
    }
    Assembled(s, layout, Front(c, |disk|), disk, c.order, unit, count);
  }
}
