/** The monolithic sparse VMDK reader's `open`, a writer of images for it, and the round trip. */
module VmdkImages {
  import opened Bytes
  import opened Sources
  import opened ImageParts
  import opened Refusals

  const MAGIC: nat := 0x564d444b
  const GRAIN_LIMIT: nat := U64_LIMIT - 0x200_0000_0000

  /** The `FLAG_COMPRESSED` bit, `1 << 16`. */
  predicate Compressed(flags: nat) {
    flags / 0x1_0000 % 2 == 1
  }

  /** What `open` makes of the header, before it looks for a parent in the descriptor. */
  ghost function Header(s: Source): Result<Source, Refusal> {
    match LittleEndianAt(s, 0, 4) case None => Err(Unreadable) case Some(magic) =>
    if magic != MAGIC then Err(NotValid) else
    match LittleEndianAt(s, 8, 4) case None => Err(Unreadable) case Some(flags) =>
    if Compressed(flags) then Err(NotSupported) else
    match LittleEndianAt(s, 12, 8) case None => Err(Unreadable) case Some(capacity) =>
    match LittleEndianAt(s, 20, 8) case None => Err(Unreadable) case Some(grainSectors) =>
    match LittleEndianAt(s, 28, 8) case None => Err(Unreadable) case Some(_) =>
    match LittleEndianAt(s, 36, 8) case None => Err(Unreadable) case Some(_) =>
    match LittleEndianAt(s, 44, 4) case None => Err(Unreadable) case Some(gtesPerGt) =>
    match LittleEndianAt(s, 56, 8) case None => Err(Unreadable) case Some(gdOffset) =>
    NumberRange(s, 44, 4);
    NumberRange(s, 56, 8);
    if grainSectors == 0 || gtesPerGt == 0 || gdOffset == 0 then Err(NotValid)
    else if grainSectors * 512 >= U64_LIMIT || capacity * 512 >= U64_LIMIT then Err(NotValid)
    else Ok(Disk(s, Vmdk(gdOffset, gtesPerGt, grainSectors * 512), capacity * 512))
  }

  /** The header names a descriptor to search for a parent image. */
  ghost predicate HasDescriptor(s: Source) {
    && LittleEndianAt(s, 28, 8).Some? && LittleEndianAt(s, 28, 8).value != 0
    && LittleEndianAt(s, 36, 8).Some? && LittleEndianAt(s, 36, 8).value != 0
  }

  /** What one read may show of a descriptor: a prefix of its first 64 KiB, empty only at the end of the
      container. */
  ghost predicate Shows(s: Source, at: nat, len: nat, text: seq<byte>) {
    && |text| <= len && Delivered(s, at, text, 0, |text|)
    && (text == [] ==> at == s.Size())
  }

  /** The outcome the descriptor justifies: without one the image is accepted; with one it is accepted
      only on a text that names no parent, and refused only on one that does, or unread. */
  ghost predicate ParentJudged<T>(s: Source, namesParent: seq<byte> -> bool, offset: nat, size: nat,
                                  r: Result<T, SourceError>) {
    var at, len := Saturate(offset * 512), Min(Saturate(size * 512), 0x1_0000);
    if offset == 0 || size == 0 then r.Ok?
    else if r.Ok? then exists text :: Shows(s, at, len, text) && !namesParent(text)
    else
      || (r.error == Unsupported && exists text :: Shows(s, at, len, text) && namesParent(text))
      || at > s.Size() || !Readable(s, at, Min(len, s.Size() - at))
  }

  /** `namesParent` judges the descriptor text, of which a short read may give only a prefix. */
  method Open(s: Source, namesParent: seq<byte> -> bool) returns (r: Result<Source, SourceError>)
    requires s.Valid()
    ensures Header(s).Err? ==> Matches(r, Header(s))
    ensures r.Ok? ==> Header(s) == Ok(r.value)
    ensures Header(s).Ok? ==>
      && LittleEndianAt(s, 28, 8).Some? && LittleEndianAt(s, 36, 8).Some?
      && ParentJudged(s, namesParent, LittleEndianAt(s, 28, 8).value, LittleEndianAt(s, 36, 8).value, r)
    ensures r.Ok? ==> (r.value.Valid() <==> r.value.layout.grainBytes <= GRAIN_LIMIT)
  {
    hide LittleEndianAt, Shows;
    Capacities();
    var magic := ReadLE(s, 0, 4);
    if magic.Err? { return Err(magic.error); }
    if magic.value != MAGIC { return Err(Malformed); }
    var flags := ReadLE(s, 8, 4);
    if flags.Err? { return Err(flags.error); }
    if Compressed(flags.value) { return Err(Unsupported); }
    var capacity := ReadLE(s, 12, 8);
    if capacity.Err? { return Err(capacity.error); }
    var grainSectors := ReadLE(s, 20, 8);
    if grainSectors.Err? { return Err(grainSectors.error); }
    var descriptorOffset := ReadLE(s, 28, 8);
    if descriptorOffset.Err? { return Err(descriptorOffset.error); }
    var descriptorSize := ReadLE(s, 36, 8);
    if descriptorSize.Err? { return Err(descriptorSize.error); }
    var gtesPerGt := ReadLE(s, 44, 4);
    if gtesPerGt.Err? { return Err(gtesPerGt.error); }
    var gdOffset := ReadLE(s, 56, 8);
    if gdOffset.Err? { return Err(gdOffset.error); }
    if grainSectors.value == 0 || gtesPerGt.value == 0 || gdOffset.value == 0 { return Err(Malformed); }
    if grainSectors.value * 512 >= U64_LIMIT || capacity.value * 512 >= U64_LIMIT { return Err(Malformed); }
    var parent := RejectIfHasParent(s, descriptorOffset.value, descriptorSize.value, namesParent);
    if parent.Err? { return Err(parent.error); }
    return Ok(Disk(s, Vmdk(gdOffset.value, gtesPerGt.value, grainSectors.value * 512), capacity.value * 512));
  }

  method RejectIfHasParent(s: Source, offset: u64, size: u64, namesParent: seq<byte> -> bool)
    returns (r: Result<(), SourceError>)
    requires s.Valid()
    ensures ParentJudged(s, namesParent, offset, size, r)
  {
    if offset == 0 || size == 0 {
      return Ok(());
    }
    var text := new byte[Min(Saturate(size * 512), 0x1_0000)];
    var read := ReadAt(s, Saturate(offset * 512), text, 0, text.Length);
    if read.Err? { return Err(read.error); }
    ghost var at, shown := Saturate(offset * 512), text[..read.value];
    assert Delivered(s, at, shown, 0, |shown|);
    assert Shows(s, at, text.Length, shown);
    if namesParent(text[..read.value]) { return Err(Unsupported); }
    return Ok(());
  }

  // ----- a writer

  /** Choices a writer makes: the grain size in sectors, the entries per grain table, the sectors given
      to the grain directory and to each grain table, which directory slots get a table and in which order
      the tables lie, which grains are allocated and in which order their data lies. */
  datatype Choice = Choice(grainSectors: nat, gtesPerGt: u32, gdSectors: nat, gtSectors: nat,
                           tables: seq<nat>, order: seq<nat>)
  {
    function Grain(): nat { 512 * grainSectors }

    /** The header takes sector 0; the directory, the tables and the grains follow. */
    function TableSector(t: nat): nat { 1 + gdSectors + t * gtSectors }

    function DataSector(k: nat): nat { TableSector(|tables|) + k * grainSectors }

    predicate Laid() {
      && grainSectors >= 1 && Grain() <= GRAIN_LIMIT
      && 1 <= gtesPerGt <= 128 * gtSectors
      && DataSector(|order|) < U32_LIMIT
    }

    /** Each listed grain has a table and each table a directory slot. */
    ghost predicate Served()
      requires gtesPerGt > 0
    {
      && (forall t :: t in tables ==> t < 128 * gdSectors)
      && (forall g :: g in order ==> g / gtesPerGt in tables)
    }

    /** The directory has a slot for every grain of the disk, and the listed grains cover its data. */
    ghost predicate Fits(disk: seq<byte>, count: nat) {
      && Laid() && Served()
      && |disk| % 512 == 0 && |disk| < U64_LIMIT
      && |disk| <= count * Grain() && count <= 128 * gdSectors * gtesPerGt
      && Covers(order, disk, Grain())
    }
  }

  function HeaderByte(c: Choice, capacity: nat, i: nat): byte {
    if i < 4 then ToLE(MAGIC, 4)[i]
    else if 12 <= i < 20 then ToLE(capacity, 8)[i - 12]
    else if 20 <= i < 28 then ToLE(c.grainSectors, 8)[i - 20]
    else if 44 <= i < 48 then ToLE(c.gtesPerGt, 4)[i - 44]
    else if 56 <= i < 64 then ToLE(1, 8)[i - 56]
    else 0
  }

  function HeaderBytes(c: Choice, capacity: nat): seq<byte> {
    seq(512, i requires 0 <= i => HeaderByte(c, capacity, i))
  }

  function DirectoryEntry(c: Choice, j: nat): nat {
    if j in c.tables then c.TableSector(IndexOf(c.tables, j)) else 0
  }

  function GrainEntry(c: Choice, g: nat): nat {
    if g in c.order then c.DataSector(IndexOf(c.order, g)) else 0
  }

  function Directory(c: Choice): seq<nat> {
    seq(128 * c.gdSectors, j requires 0 <= j => DirectoryEntry(c, j))
  }

  /** Slot `r` of table `t`, zero past the table's last entry. */
  function TableSlot(c: Choice, t: nat, r: nat): nat
    requires t < |c.tables|
  {
    if r < c.gtesPerGt then GrainEntry(c, c.tables[t] * c.gtesPerGt + r) else 0
  }

  function GrainTables(c: Choice, slots: nat): seq<nat>
    requires slots > 0
  {
    seq(|c.tables| * slots, i requires 0 <= i < |c.tables| * slots =>
      TableIndex(|c.tables|, slots, i); TableSlot(c, i / slots, i % slots))
  }

  function Front(c: Choice, capacity: nat): seq<byte>
    requires c.gtSectors > 0
  {
    HeaderBytes(c, capacity) + Table(Directory(c), 4, false) + Table(GrainTables(c, 128 * c.gtSectors), 4, false)
  }

  function Image(c: Choice, disk: seq<byte>): seq<byte>
    requires c.Laid()
  {
    Front(c, |disk| / 512) + Spread(disk, c.order, c.Grain())
  }

  // ----- round trip

  lemma Products(n: nat, sectors: nat)
    ensures n * (128 * sectors) * 4 == 512 * (n * sectors)
    ensures n * (512 * sectors) == 512 * (n * sectors)
  {
  }

  lemma Sizes(c: Choice, capacity: nat)
    requires c.gtSectors > 0
    ensures |HeaderBytes(c, capacity) + Table(Directory(c), 4, false)| == 512 * c.TableSector(0)
    ensures |Front(c, capacity)| == 512 * c.DataSector(0)
  {
    Products(|c.tables|, c.gtSectors);
  }

  /** Every sector number an entry holds is positive and fits its 32 bits. */
  lemma EntriesFit(c: Choice)
    requires c.Laid()
    ensures forall j :: DirectoryEntry(c, j) < U32_LIMIT && (j in c.tables ==> DirectoryEntry(c, j) > 0)
    ensures forall g :: GrainEntry(c, g) < U32_LIMIT && (g in c.order ==> GrainEntry(c, g) > 0)
  {
    forall j | j in c.tables
      ensures 0 < DirectoryEntry(c, j) < U32_LIMIT
    {
      MulMonotone(IndexOf(c.tables, j), |c.tables|, c.gtSectors);
    }
    forall g | g in c.order
      ensures 0 < GrainEntry(c, g) < U32_LIMIT
    {
      MulMonotone(IndexOf(c.order, g), |c.order|, c.grainSectors);
    }
  }

  lemma HeaderReads(s: Source, c: Choice, capacity: nat, image: seq<byte>)
    requires Holds(s, image) && |image| >= 512 && forall i :: 0 <= i < 64 ==> image[i] == HeaderByte(c, capacity, i)
    requires c.Laid() && capacity * 512 < U64_LIMIT
    ensures Header(s) == Ok(Disk(s, Vmdk(1, c.gtesPerGt, c.Grain()), capacity * 512))
    ensures !HasDescriptor(s)
  {
    Capacities();
    hide Capacity, ToBE, ToLE, LittleEndianAt;
    Zeros(4);
    Zeros(8);
    HeldField(s, image, 0, MAGIC, 4, false);
    HeldField(s, image, 8, 0, 4, false);
    HeldField(s, image, 12, capacity, 8, false);
    HeldField(s, image, 20, c.grainSectors, 8, false);
    HeldField(s, image, 28, 0, 8, false);
    HeldField(s, image, 36, 0, 8, false);
    HeldField(s, image, 44, c.gtesPerGt, 4, false);
    HeldField(s, image, 56, 1, 8, false);
  }

  lemma DirectoryReads(s: Source, c: Choice, disk: seq<byte>, j: nat)
    requires c.Laid() && Holds(s, Image(c, disk)) && j < 128 * c.gdSectors
    ensures LittleEndianAt(s, 512 + j * 4, 4) == Some(DirectoryEntry(c, j))
  {
    Capacities();
    EntriesFit(c);
    var header, gd := HeaderBytes(c, |disk| / 512), Directory(c);
    var post := Table(GrainTables(c, 128 * c.gtSectors), 4, false) + Spread(disk, c.order, c.Grain());
    assert Image(c, disk) == header + Table(gd, 4, false) + post;
    HeldEntry(s, header, gd, post, 4, false, j);
  }

  lemma SlotReads(s: Source, c: Choice, disk: seq<byte>, slots: nat, t: nat, r: nat)
    requires c.Laid() && Holds(s, Image(c, disk)) && slots == 128 * c.gtSectors
    requires t < |c.tables| && r < slots
    ensures LittleEndianAt(s, c.TableSector(t) * 512 + r * 4, 4) == Some(TableSlot(c, t, r))
  {
    Capacities();
    EntriesFit(c);
    SlotIndex(c, slots, t, r);
    Sizes(c, |disk| / 512);
    Products(t, c.gtSectors);
    var pre, gts := HeaderBytes(c, |disk| / 512) + Table(Directory(c), 4, false), GrainTables(c, slots);
    assert Image(c, disk) == pre + Table(gts, 4, false) + Spread(disk, c.order, c.Grain());
    HeldEntry(s, pre, gts, Spread(disk, c.order, c.Grain()), 4, false, t * slots + r);
  }

  lemma SlotIndex(c: Choice, slots: nat, t: nat, r: nat)
    requires t < |c.tables| && r < slots
    ensures t * slots + r < |GrainTables(c, slots)| && GrainTables(c, slots)[t * slots + r] == TableSlot(c, t, r)
  {
    MulMonotone(t + 1, |c.tables|, slots);
    Sums(t, 1, slots);
    DivModUnique(t * slots + r, slots, t, r);
  }

  lemma DataPlace(c: Choice, capacity: nat, g: nat)
    requires c.Laid() && g in c.order
    ensures GrainEntry(c, g) * 512 == |Front(c, capacity)| + IndexOf(c.order, g) * c.Grain()
  {
    Sizes(c, capacity);
    Products(IndexOf(c.order, g), c.grainSectors);
  }

  /** The directory and table lookup finds each allocated grain where the writer put it, and a hole
      elsewhere. */
  lemma GrainFound(s: Source, c: Choice, disk: seq<byte>, g: nat, j: nat, r: nat)
    requires c.Laid() && c.Served() && Holds(s, Image(c, disk))
    requires Splits(g, c.gtesPerGt, j, r) && j < 128 * c.gdSectors
    ensures LocateGrain(s, 1, j, r) == Placed(c.order, |Front(c, |disk| / 512)|, c.Grain(), g)
  {
    hide ByteAt, LittleEndianAt, Image, Front, IndexOf;
    DirectoryReads(s, c, disk, j);
    EntriesFit(c);
    ServedSlot(c, g, j, r);
    if j in c.tables {
      SlotReads(s, c, disk, 128 * c.gtSectors, IndexOf(c.tables, j), r);
      if g in c.order {
        DataPlace(c, |disk| / 512, g);
      }
    }
  }

  lemma ServedSlot(c: Choice, g: nat, j: nat, r: nat)
    requires c.gtesPerGt > 0 && c.Served() && Splits(g, c.gtesPerGt, j, r)
    ensures g in c.order ==> j in c.tables
  {
    DivModUnique(g, c.gtesPerGt, j, r);
  }

  /** Writing any disk of whole sectors with any choice of layout and opening the result, wherever in a
      stack it is stored, gives back the disk: same size, same byte everywhere. */
  lemma RoundTrip(s: Source, c: Choice, disk: seq<byte>, count: nat)
    requires c.Fits(disk, count) && Holds(s, Image(c, disk))
    ensures Header(s).Ok? && !HasDescriptor(s) && Holds(Header(s).value, disk)
  {
    var image := Image(c, disk);
    assert |image| >= 512 && forall i :: 0 <= i < 64 ==> image[i] == HeaderByte(c, |disk| / 512, i);
    HeaderReads(s, c, |disk| / 512, image);
    var unit: u64 := c.Grain();
    var base := |Front(c, |disk| / 512)|;
    forall g: nat, j: nat, r: nat | Splits(g, c.gtesPerGt, j, r) && j < 128 * c.gdSectors
      ensures LocateGrain(s, 1, j, r) == Placed(c.order, base, unit, g)
    {
      GrainFound(s, c, disk, g, j, r);
    }
    AllLocated(s, unit, c.gtesPerGt, 128 * c.gdSectors, count, c.order, base);
    Assembled(s, Vmdk(1, c.gtesPerGt, unit), Front(c, |disk| / 512), disk, c.order, unit, count);
  }

  lemma AllLocated(s: Source, unit: u64, gtes: u32, slots: nat, count: nat, order: seq<nat>, base: nat)
    requires gtes > 0 && count <= slots * gtes
    requires forall g: nat, j: nat, r: nat :: Splits(g, gtes, j, r) && j < slots ==>
      LocateGrain(s, 1, j, r) == Placed(order, base, unit, g)
    ensures forall g :: 0 <= g < count ==> Locate(s, Vmdk(1, gtes, unit), g) == Placed(order, base, unit, g)
  {
    forall g | 0 <= g < count
      ensures Locate(s, Vmdk(1, gtes, unit), g) == Placed(order, base, unit, g)
    {
      var j, r := Split(g, gtes);
      TableIndex(slots, gtes, g);
    }
  }
}
