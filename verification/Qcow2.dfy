/** The QCOW2 version 3 reader's `open`, a writer of images for it, and the round trip. */
module Qcow2Images {
  import opened Bytes
  import opened Sources
  import opened ImageParts
  import opened Refusals

  const MAGIC: nat := 0x514649fb

  lemma ClusterSizes(bits: nat)
    requires 9 <= bits <= 21
    ensures Pow2(bits) % 512 == 0 && 512 <= Pow2(bits) <= 0x20_0000
  {
    assert Pow2(4) == 16;
    assert Pow2(8) == 256;
    assert Pow2(9) == 0x200 && Pow2(10) == 0x400 && Pow2(11) == 0x800 && Pow2(12) == 0x1000;
    assert Pow2(13) == 0x2000 && Pow2(14) == 0x4000 && Pow2(15) == 0x8000 && Pow2(16) == 0x1_0000;
    assert Pow2(17) == 0x2_0000 && Pow2(18) == 0x4_0000 && Pow2(19) == 0x8_0000 && Pow2(20) == 0x10_0000;
    assert Pow2(21) == 0x20_0000;
  }

  /** What `open` makes of the header, field by field in the order it reads them. */
  ghost function Header(s: Source): Result<Source, Refusal> {
    match BigEndianAt(s, 0, 4) case None => Err(Unreadable) case Some(magic) =>
    if magic != MAGIC then Err(NotValid) else
    match BigEndianAt(s, 4, 4) case None => Err(Unreadable) case Some(version) =>
    if version != 3 then Err(NotValid) else
    match BigEndianAt(s, 8, 8) case None => Err(Unreadable) case Some(backing) =>
    if backing != 0 then Err(NotSupported) else
    match BigEndianAt(s, 32, 4) case None => Err(Unreadable) case Some(encryption) =>
    if encryption != 0 then Err(NotSupported) else
    match BigEndianAt(s, 60, 4) case None => Err(Unreadable) case Some(snapshots) =>
    if snapshots != 0 then Err(NotSupported) else
    match BigEndianAt(s, 20, 4) case None => Err(Unreadable) case Some(bits) =>
    if !(9 <= bits <= 21) then Err(NotValid) else Geometry(s, bits)
  }

  ghost function Geometry(s: Source, bits: nat): Result<Source, Refusal>
    requires 9 <= bits <= 21
  {
    match BigEndianAt(s, 24, 8) case None => Err(Unreadable) case Some(size) =>
    match BigEndianAt(s, 36, 4) case None => Err(Unreadable) case Some(l1Size) =>
    match BigEndianAt(s, 40, 8) case None => Err(Unreadable) case Some(l1Offset) =>
    ClusterSizes(bits);
    NumberRange(s, 24, 8); NumberRange(s, 36, 4); NumberRange(s, 40, 8);
    Ok(Disk(s, Qcow2(l1Offset, l1Size, Pow2(bits)), size))
  }

  method Open(s: Source) returns (r: Result<Source, SourceError>)
    requires s.Valid()
    ensures Matches(r, Header(s))
    ensures r.Ok? ==> r.value.Valid()
  {
    Capacities();
    var magic := ReadBE(s, 0, 4);
    if magic.Err? { return Err(magic.error); }
    if magic.value != MAGIC { return Err(Malformed); }
    var version := ReadBE(s, 4, 4);
    if version.Err? { return Err(version.error); }
    if version.value != 3 { return Err(Malformed); }
    var backing := ReadBE(s, 8, 8);
    if backing.Err? { return Err(backing.error); }
    if backing.value != 0 { return Err(Unsupported); }
    var encryption := ReadBE(s, 32, 4);
    if encryption.Err? { return Err(encryption.error); }
    if encryption.value != 0 { return Err(Unsupported); }
    var snapshots := ReadBE(s, 60, 4);
    if snapshots.Err? { return Err(snapshots.error); }
    if snapshots.value != 0 { return Err(Unsupported); }
    var bits := ReadBE(s, 20, 4);
    if bits.Err? { return Err(bits.error); }
    if !(9 <= bits.value <= 21) { return Err(Malformed); }
    r := ReadGeometry(s, bits.value);
  }

  method ReadGeometry(s: Source, bits: nat) returns (r: Result<Source, SourceError>)
    requires s.Valid() && 9 <= bits <= 21
    ensures Matches(r, Geometry(s, bits))
    ensures r.Ok? ==> r.value.Valid()
  {
    hide Pow2, BigEndianAt, Capacity;
    Capacities();
    ClusterSizes(bits);
    var size := ReadBE(s, 24, 8);
    if size.Err? { return Err(size.error); }
    var l1Size := ReadBE(s, 36, 4);
    if l1Size.Err? { return Err(l1Size.error); }
    var l1Offset := ReadBE(s, 40, 8);
    if l1Offset.Err? { return Err(l1Offset.error); }
    return Ok(Disk(s, Qcow2(l1Offset.value, l1Size.value, Pow2(bits)), size.value));
  }

  // ----- a writer

  /** Choices a writer makes: the cluster size (as a power of two and in sectors), the length of the L1
      table and the clusters set aside for it, which L1 slots get an L2 table and in which order the
      tables lie in the file, which guest clusters are allocated and in which order their data lies. */
  datatype Choice = Choice(bits: nat, sectors: nat, l1Size: u32, l1Clusters: nat, tables: seq<nat>, order: seq<nat>)
  {
    function Cluster(): nat { 512 * sectors }

    function L2Entries(): nat { 64 * sectors }

    /** File offset of host cluster `n`. */
    function Host(n: nat): nat { 512 * (n * sectors) }

    /** The header takes host cluster 0; the L1 table, the L2 tables and the data follow. */
    function FirstTable(): nat { 1 + l1Clusters }

    function FirstData(): nat { FirstTable() + |tables| }

    function End(): nat { FirstData() + |order| }

    /** Each listed cluster has an L2 table, the listed clusters cover the data, and the file stays
        within the 56 bits an entry has for offsets. */
    ghost predicate Fits(disk: seq<byte>) {
      && Laid()
      && 9 <= bits <= 21 && Pow2(bits) == Cluster()
      && |disk| < U64_LIMIT
      && Served(L2Entries())
      && Covers(order, disk, Cluster())
    }

    ghost predicate Served(e: nat)
      requires e > 0
    {
      && (forall t :: t in tables ==> t < l1Size)
      && (forall g :: g in order ==> g / e in tables)
    }

    predicate Laid() {
      && sectors >= 1
      && l1Size <= l1Clusters * L2Entries()
      && Host(End()) <= 0x100_0000_0000_0000
    }
  }

  const COPIED: nat := 0x8000_0000_0000_0000

  function HeaderByte(c: Choice, size: nat, i: nat): byte {
    if i < 4 then ToBE(MAGIC, 4)[i]
    else if 4 <= i < 8 then ToBE(3, 4)[i - 4]
    else if 20 <= i < 24 then ToBE(c.bits, 4)[i - 20]
    else if 24 <= i < 32 then ToBE(size, 8)[i - 24]
    else if 36 <= i < 40 then ToBE(c.l1Size, 4)[i - 36]
    else if 40 <= i < 48 then ToBE(c.Cluster(), 8)[i - 40]
    else 0
  }

  function HeaderBytes(c: Choice, size: nat): seq<byte> {
    seq(c.Cluster(), i requires 0 <= i => HeaderByte(c, size, i))
  }

  function L1Entry(c: Choice, j: nat): nat {
    if j in c.tables then COPIED + c.Host(c.FirstTable() + IndexOf(c.tables, j)) else 0
  }

  function L2Entry(c: Choice, g: nat): nat {
    if g in c.order then COPIED + c.Host(c.FirstData() + IndexOf(c.order, g)) else 0
  }

  function L1Table(c: Choice): seq<nat> {
    seq(c.l1Clusters * c.L2Entries(), j requires 0 <= j => L1Entry(c, j))
  }

  function L2Tables(c: Choice, e: nat): seq<nat>
    requires e > 0
  {
    seq(|c.tables| * e, i requires 0 <= i < |c.tables| * e =>
      TableIndex(|c.tables|, e, i); L2Entry(c, c.tables[i / e] * e + i % e))
  }

  function Image(c: Choice, disk: seq<byte>): seq<byte>
    requires c.sectors >= 1
  {
    Front(c, disk) + Spread(disk, c.order, c.Cluster())
  }

  function Front(c: Choice, disk: seq<byte>): seq<byte>
    requires c.sectors >= 1
  {
    HeaderBytes(c, |disk|) + Table(L1Table(c), 8, true) + Table(L2Tables(c, c.L2Entries()), 8, true)
  }

  // ----- round trip

  lemma Sizes(c: Choice, disk: seq<byte>)
    requires c.sectors >= 1
    ensures |HeaderBytes(c, |disk|)| == c.Cluster()
    ensures |HeaderBytes(c, |disk|) + Table(L1Table(c), 8, true)| == c.Host(c.FirstTable())
    ensures |Front(c, disk)| == c.Host(c.FirstData())
    ensures |Image(c, disk)| == c.Host(c.End())
  {
    Products(c.l1Clusters, c.sectors);
    Products(|c.tables|, c.sectors);
    Products(|c.order|, c.sectors);
    Sums(1, c.l1Clusters, c.sectors);
    Sums(c.FirstTable(), |c.tables|, c.sectors);
    Sums(c.FirstData(), |c.order|, c.sectors);
  }

  lemma Products(n: nat, sectors: nat)
    ensures n * (64 * sectors) * 8 == 512 * (n * sectors)
    ensures n * (512 * sectors) == 512 * (n * sectors)
  {
  }

  /** The entry for host cluster `n`: its offset survives the mask, with the copied flag set and the
      compressed flag clear, and it is not the zero that means a hole. */
  lemma EntryValid(c: Choice, n: nat)
    requires c.Laid() && 1 <= n < c.End()
    ensures var entry := COPIED + c.Host(n);
      entry < U64_LIMIT && Qcow2Offset(entry) == c.Host(n) != 0 && !Qcow2Compressed(entry)
  {
    MulMonotone(n + 1, c.End(), c.sectors);
    Sums(n, 1, c.sectors);
    MulMonotone(1, n, c.sectors);
    MaskedOffset(n * c.sectors);
  }

  lemma MaskedOffset(sector: nat)
    requires 512 * sector < 0x100_0000_0000_0000
    ensures Qcow2Offset(COPIED + 512 * sector) == 512 * sector && !Qcow2Compressed(COPIED + 512 * sector)
  {
  }

  lemma HeaderReads(s: Source, c: Choice, disk: seq<byte>)
    requires c.Fits(disk) && Holds(s, Image(c, disk))
    ensures Header(s) == Ok(Disk(s, Qcow2(c.Cluster(), c.l1Size, c.Cluster()), |disk|))
  {
    var image := Image(c, disk);
    assert |image| >= 512 && forall i :: 0 <= i < 64 ==> image[i] == HeaderByte(c, |disk|, i);
    ClusterSizes(c.bits);
    HeaderFields(s, c, |disk|, image);
  }

  lemma HeaderFields(s: Source, c: Choice, size: u64, image: seq<byte>)
    requires Holds(s, image) && |image| >= 512
    requires forall i :: 0 <= i < 64 ==> image[i] == HeaderByte(c, size, i)
    requires 9 <= c.bits <= 21 && c.Cluster() == Pow2(c.bits) <= 0x20_0000
    ensures Header(s) == Ok(Disk(s, Qcow2(c.Cluster(), c.l1Size, c.Cluster()), size))
  {
    Capacities();
    hide Capacity, ToBE, ToLE, BigEndianAt, Pow2;
    Zeros(4);
    Zeros(8);
    HeldField(s, image, 0, MAGIC, 4, true);
    HeldField(s, image, 4, 3, 4, true);
    HeldField(s, image, 8, 0, 8, true);
    HeldField(s, image, 32, 0, 4, true);
    HeldField(s, image, 60, 0, 4, true);
    HeldField(s, image, 20, c.bits, 4, true);
    HeldField(s, image, 24, size, 8, true);
    HeldField(s, image, 36, c.l1Size, 4, true);
    HeldField(s, image, 40, c.Cluster(), 8, true);
  }

  lemma L1Reads(s: Source, c: Choice, disk: seq<byte>, j: nat)
    requires c.Laid() && Holds(s, Image(c, disk)) && j < c.l1Size
    ensures BigEndianAt(s, c.Cluster() + j * 8, 8) == Some(L1Entry(c, j))
  {
    Capacities();
    if j in c.tables {
      EntryValid(c, c.FirstTable() + IndexOf(c.tables, j));
    }
    var header, l1 := HeaderBytes(c, |disk|), L1Table(c);
    var post := Table(L2Tables(c, c.L2Entries()), 8, true) + Spread(disk, c.order, c.Cluster());
    assert Image(c, disk) == header + Table(l1, 8, true) + post;
    HeldEntry(s, header, l1, post, 8, true, j);
  }

  lemma L2Reads(s: Source, c: Choice, disk: seq<byte>, e: nat, t: nat, r: nat, g: nat)
    requires c.Laid() && Holds(s, Image(c, disk))
    requires e == c.L2Entries() && t < |c.tables| && r < e && g == c.tables[t] * e + r
    ensures BigEndianAt(s, c.Host(c.FirstTable() + t) + r * 8, 8) == Some(L2Entry(c, g))
  {
    hide HeaderBytes, L1Table, L2Tables, Spread, Table, IndexOf;
    Capacities();
    if g in c.order {
      EntryValid(c, c.FirstData() + IndexOf(c.order, g));
    }
    L2Index(c, e, t, r);
    TableAddress(c, disk, e, t, r);
    var pre, l2 := HeaderBytes(c, |disk|) + Table(L1Table(c), 8, true), L2Tables(c, e);
    assert Image(c, disk) == pre + Table(l2, 8, true) + Spread(disk, c.order, c.Cluster());
    HeldEntry(s, pre, l2, Spread(disk, c.order, c.Cluster()), 8, true, t * e + r);
  }

  lemma TableAddress(c: Choice, disk: seq<byte>, e: nat, t: nat, r: nat)
    requires c.sectors >= 1 && e == c.L2Entries()
    ensures c.Host(c.FirstTable() + t) + r * 8 ==
            |HeaderBytes(c, |disk|) + Table(L1Table(c), 8, true)| + (t * e + r) * 8
  {
    Sizes(c, disk);
    Products(t, c.sectors);
    Sums(c.FirstTable(), t, c.sectors);
  }

  lemma L2Index(c: Choice, e: nat, t: nat, r: nat)
    requires t < |c.tables| && r < e
    ensures t * e + r < |L2Tables(c, e)| && L2Tables(c, e)[t * e + r] == L2Entry(c, c.tables[t] * e + r)
  {
    MulMonotone(t + 1, |c.tables|, e);
    Sums(t, 1, e);
    DivModUnique(t * e + r, e, t, r);
  }

  /** Host clusters of the data follow one another after everything `FirstData` counts. */
  lemma DataPlace(c: Choice, disk: seq<byte>, g: nat)
    requires c.sectors >= 1 && g in c.order
    ensures c.Host(c.FirstData() + IndexOf(c.order, g)) == |Front(c, disk)| + IndexOf(c.order, g) * c.Cluster()
  {
    Sizes(c, disk);
    Products(IndexOf(c.order, g), c.sectors);
    Sums(c.FirstData(), IndexOf(c.order, g), c.sectors);
  }

  /** The two-level lookup finds each allocated cluster where the writer put it, and a hole elsewhere. */
  lemma ClusterFound(s: Source, c: Choice, disk: seq<byte>, e: nat, g: nat, j: nat, r: nat)
    requires c.Laid() && Holds(s, Image(c, disk)) && e == c.L2Entries() && c.Served(e) && Splits(g, e, j, r)
    ensures LocateCluster(s, c.Cluster(), c.l1Size, j, r) == Placed(c.order, |Front(c, disk)|, c.Cluster(), g)
  {
    hide ByteAt, BigEndianAt, Image, Front, IndexOf;
    ServedSlot(c, e, g, j, r);
    if j < c.l1Size {
      L1Reads(s, c, disk, j);
      if j in c.tables {
        TableFound(s, c, disk, e, g, j, r);
      }
    }
  }

  lemma ZeroEntry()
    ensures Qcow2Offset(0) == 0 && !Qcow2Compressed(0)
  {
  }

  lemma TableFound(s: Source, c: Choice, disk: seq<byte>, e: nat, g: nat, j: nat, r: nat)
    requires c.Laid() && Holds(s, Image(c, disk))
    requires e == c.L2Entries() && j in c.tables && r < e && g == j * e + r
    ensures Qcow2Offset(L1Entry(c, j)) != 0
    ensures BigEndianAt(s, Qcow2Offset(L1Entry(c, j)) + r * 8, 8) == Some(L2Entry(c, g))
    ensures !Qcow2Compressed(L2Entry(c, g))
    ensures Placed(c.order, |Front(c, disk)|, c.Cluster(), g) ==
            if Qcow2Offset(L2Entry(c, g)) == 0 then Hole else At(Qcow2Offset(L2Entry(c, g)))
  {
    hide ByteAt, BigEndianAt, Image, Front, IndexOf, Qcow2Offset, Qcow2Compressed, Choice.Host;
    ZeroEntry();
    var t := IndexOf(c.tables, j);
    EntryValid(c, c.FirstTable() + t);
    L2Reads(s, c, disk, e, t, r, g);
    if g in c.order {
      EntryValid(c, c.FirstData() + IndexOf(c.order, g));
      DataPlace(c, disk, g);
    }
  }

  /** Writing any disk with any choice of layout and opening the result, wherever in a stack it is
      stored, gives back the disk: same size, same byte everywhere. */
  lemma RoundTrip(s: Source, c: Choice, disk: seq<byte>)
    requires c.Fits(disk) && Holds(s, Image(c, disk))
    ensures Header(s).Ok? && Holds(Header(s).value, disk)
  {
    HeaderReads(s, c, disk);
    ClusterSizes(c.bits);
    var e, unit: u64 := c.L2Entries(), c.Cluster();
    var base := |Front(c, disk)|;
    forall g, j, r | Splits(g, e, j, r)
      ensures LocateCluster(s, unit, c.l1Size, j, r) == Placed(c.order, base, unit, g)
    {
      ClusterFound(s, c, disk, e, g, j, r);
    }
    AllLocated(s, unit, c.l1Size, e, c.order, base);
    MulMonotone(1, unit, |disk|);
    Assembled(s, Qcow2(unit, c.l1Size, unit), Front(c, disk), disk, c.order, unit, |disk|);
  }

  lemma AllLocated(s: Source, unit: u64, l1Size: u32, e: nat, order: seq<nat>, base: nat)
    requires unit / 8 == e > 0
    requires forall g, j, r :: Splits(g, e, j, r) ==>
      LocateCluster(s, unit, l1Size, j, r) == Placed(order, base, unit, g)
    ensures forall g: nat :: Locate(s, Qcow2(unit, l1Size, unit), g) == Placed(order, base, unit, g)
  {
    forall g: nat
      ensures Locate(s, Qcow2(unit, l1Size, unit), g) == Placed(order, base, unit, g)
    {
      var j, r := Split(g, e);
    }
  }

  lemma ServedSlot(c: Choice, e: nat, g: nat, j: nat, r: nat)
    requires e > 0 && c.Served(e) && Splits(g, e, j, r)
    ensures g in c.order ==> j in c.tables
    ensures j in c.tables ==> j < c.l1Size
  {
    DivModUnique(g, e, j, r);
  }
}
