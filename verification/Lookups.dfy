/** What a guest byte of each virtual disk is, said on the container's bytes alone: which table entry, which of
    its bytes and bits, and where they lead. The readers' lookups, with their masks and decoded numbers, give
    exactly this. */
module Lookups {
  import opened Bytes
  import opened Sources

  /** `q` units of `unit` bytes and `r` more. */
  function Position(q: nat, unit: nat, r: nat): nat {
    q * unit + r
  }

  // ----- QCOW2

  /** The host offset of an eight-byte big-endian entry: bytes 1 to 6 count 256-byte steps, the lowest bit of
      them ignored. */
  function EntryOffset(e: seq<byte>): nat
    requires |e| == 8
  {
    512 * (FromBE(e[1..7]) / 2)
  }

  /** Bit 62 of a big-endian entry. */
  predicate CompressedEntry(e: seq<byte>)
    requires |e| == 8
  {
    e[0] / 64 % 2 == 1
  }

  lemma EntryBits(e: seq<byte>)
    requires |e| == 8
    ensures Qcow2Offset(FromBE(e)) == EntryOffset(e) && (Qcow2Compressed(FromBE(e)) <==> CompressedEntry(e))
  {
    Capacities();
    var first, middle, last := e[0], FromBE(e[1..7]), e[7];
    assert e == [e[0]] + (e[1..7] + [e[7]]);
    BigEndianWeights([e[0]], e[1..7] + [e[7]]);
    BigEndianWeights(e[1..7], [e[7]]);
    assert Capacity(7) == 0x100_0000_0000_0000;
    BigEndianRange(e[1..7]);
    assert Capacity(6) == 0x1_0000_0000_0000;
    hide FromBE, Capacity;
    OffsetParts(first, middle, last);
  }

  lemma OffsetParts(first: byte, middle: nat, last: byte)
    requires middle < 0x1_0000_0000_0000
    ensures var entry := first * 0x100_0000_0000_0000 + (middle * 256 + last);
      Qcow2Offset(entry) == 512 * (middle / 2) && (Qcow2Compressed(entry) <==> first / 64 % 2 == 1)
  {
    var entry := first * 0x100_0000_0000_0000 + (middle * 256 + last);
    assert entry % 0x100_0000_0000_0000 == middle * 256 + last;
  }

  /** Byte `r` of guest cluster `g`, found through entry `g / (cluster / 8)` of the L1 table and entry
      `g % (cluster / 8)` of the L2 table it names. */
  ghost function Qcow2Byte(inner: Source, l1Offset: nat, l1Size: nat, cluster: nat, g: nat, r: nat): Option<byte>
    requires cluster >= 8
  {
    var i, j := g / (cluster / 8), g % (cluster / 8);
    if i >= l1Size then Some(0) else
    match BytesAt(inner, l1Offset + i * 8, 8)
    case None => None
    case Some(l1) =>
      if EntryOffset(l1) == 0 then Some(0) else
      match BytesAt(inner, EntryOffset(l1) + j * 8, 8)
      case None => None
      case Some(l2) =>
        if CompressedEntry(l2) then None
        else if EntryOffset(l2) == 0 then Some(0)
        else ByteAt(inner, EntryOffset(l2) + r)
  }

  lemma Qcow2Guest(s: Source, g: nat, r: nat)
    requires s.Disk? && s.layout.Qcow2? && s.layout.Valid()
    requires r < s.layout.clusterSize && Position(g, s.layout.clusterSize, r) < s.virtualSize
    ensures ByteAt(s, Position(g, s.layout.clusterSize, r)) ==
            Qcow2Byte(s.inner, s.layout.l1Offset, s.layout.l1Size, s.layout.clusterSize, g, r)
  {
    var i := Position(g, s.layout.clusterSize, r);
    DivModUnique(i, s.layout.clusterSize, g, r);
    DiskByte(s, i, s.layout.clusterSize, g, r);
    ClusterBytes(s.inner, s.layout.l1Offset, s.layout.l1Size, s.layout.clusterSize, g, r);
  }

  lemma ClusterBytes(inner: Source, l1Offset: u64, l1Size: u32, cluster: u64, g: nat, r: nat)
    requires cluster >= 8
    ensures MeaningAt(inner, Locate(inner, Qcow2(l1Offset, l1Size, cluster), g), r) ==
            Qcow2Byte(inner, l1Offset, l1Size, cluster, g, r)
  {
    hide ByteAt, EntryOffset, CompressedEntry, Qcow2Offset, Qcow2Compressed, FromBE, Slice, Readable;
    var e := cluster / 8;
    var i, j := g / e, g % e;
    assert Locate(inner, Qcow2(l1Offset, l1Size, cluster), g) == LocateCluster(inner, l1Offset, l1Size, i, j);
    var l1 := BytesAt(inner, l1Offset + i * 8, 8);
    BigEndianBytes(inner, l1Offset + i * 8, 8);
    if l1.Some? {
      EntryBits(l1.value);
      BigEndianBytes(inner, EntryOffset(l1.value) + j * 8, 8);
      var l2 := BytesAt(inner, EntryOffset(l1.value) + j * 8, 8);
      if l2.Some? {
        EntryBits(l2.value);
      }
    }
  }

  // ----- VMDK

  /** Byte `r` of grain `g`, found through the directory and the grain table it names; both count sectors. */
  ghost function VmdkByte(inner: Source, gdSector: nat, gtes: nat, g: nat, r: nat): Option<byte>
    requires gtes > 0
  {
    match BytesAt(inner, gdSector * 512 + g / gtes * 4, 4)
    case None => None
    case Some(gde) =>
      if gde == [0, 0, 0, 0] then Some(0) else
      match BytesAt(inner, FromLE(gde) * 512 + g % gtes * 4, 4)
      case None => None
      case Some(gte) => if gte == [0, 0, 0, 0] then Some(0) else ByteAt(inner, FromLE(gte) * 512 + r)
  }

  lemma ZeroSector(e: seq<byte>)
    requires |e| == 4
    ensures FromLE(e) == 0 <==> e == [0, 0, 0, 0]
  {
    assert FromLE([0, 0, 0, 0]) == 0;
    if FromLE(e) == 0 {
      LittleEndianInjective(e, [0, 0, 0, 0]);
    }
  }

  lemma VmdkGuest(s: Source, g: nat, r: nat)
    requires s.Disk? && s.layout.Vmdk? && s.layout.Valid()
    requires r < s.layout.grainBytes && Position(g, s.layout.grainBytes, r) < s.virtualSize
    ensures ByteAt(s, Position(g, s.layout.grainBytes, r)) ==
            VmdkByte(s.inner, s.layout.gdOffset, s.layout.gtesPerGt, g, r)
  {
    var i := Position(g, s.layout.grainBytes, r);
    DivModUnique(i, s.layout.grainBytes, g, r);
    DiskByte(s, i, s.layout.grainBytes, g, r);
    GrainBytes(s.inner, s.layout.gdOffset, s.layout.gtesPerGt, s.layout.grainBytes, g, r);
  }

  lemma GrainBytes(inner: Source, gdOffset: u64, gtes: u32, grain: u64, g: nat, r: nat)
    requires gtes > 0
    ensures MeaningAt(inner, Locate(inner, Vmdk(gdOffset, gtes, grain), g), r) == VmdkByte(inner, gdOffset, gtes, g, r)
  {
    hide ByteAt, FromLE, Slice, Readable;
    assert Locate(inner, Vmdk(gdOffset, gtes, grain), g) == LocateGrain(inner, gdOffset, g / gtes, g % gtes);
    LittleEndianBytes(inner, gdOffset * 512 + g / gtes * 4, 4);
    var gde := BytesAt(inner, gdOffset * 512 + g / gtes * 4, 4);
    if gde.Some? {
      ZeroSector(gde.value);
      LittleEndianBytes(inner, FromLE(gde.value) * 512 + g % gtes * 4, 4);
      var gte := BytesAt(inner, FromLE(gde.value) * 512 + g % gtes * 4, 4);
      if gte.Some? {
        ZeroSector(gte.value);
      }
    }
  }

  // ----- VHDX

  /** The host offset of an eight-byte little-endian entry: from bit 20 up, in MiB. */
  function BlockOffset(e: seq<byte>): nat
    requires |e| == 8
  {
    0x10_0000 * (FromLE(e[2..8]) / 16)
  }

  lemma BlockBits(e: seq<byte>)
    requires |e| == 8
    ensures VhdxOffset(FromLE(e)) == BlockOffset(e) && FromLE(e) % 8 == e[0] % 8
  {
    Capacities();
    assert e == [e[0]] + ([e[1]] + e[2..8]);
    LittleEndianWeights([e[0]], [e[1]] + e[2..8]);
    LittleEndianWeights([e[1]], e[2..8]);
    hide FromLE, Capacity;
    LowParts(e[0], e[1], FromLE(e[2..8]));
    assert FromLE(e) == e[0] + 256 * (e[1] + 256 * FromLE(e[2..8]));
  }

  lemma LowParts(a: byte, b: byte, high: nat)
    ensures var entry := a + 256 * (b + 256 * high);
      VhdxOffset(entry) == 0x10_0000 * (high / 16) && entry % 8 == a % 8
  {
  }

  /** Byte `r` of payload block `g`: block `g % ratio` of group `g / ratio`, each group being `ratio` payload
      slots and one bitmap slot. Every state but 6, fully present, reads as zero. */
  ghost function VhdxByte(inner: Source, batOffset: nat, ratio: nat, g: nat, r: nat): Option<byte>
    requires ratio > 0
  {
    var slot := (g / ratio) * (ratio + 1) + g % ratio;
    match BytesAt(inner, batOffset + slot * 8, 8)
    case None => None
    case Some(e) => if e[0] % 8 == 6 then ByteAt(inner, BlockOffset(e) + r) else Some(0)
  }

  lemma SlotInGroup(ratio: nat, g: nat)
    requires ratio > 0
    ensures BatIndex(ratio, g) == (g / ratio) * (ratio + 1) + g % ratio
  {
    var q, r := Split(g, ratio);
    assert q * (ratio + 1) == q * ratio + q;
  }

  lemma VhdxGuest(s: Source, g: nat, r: nat)
    requires s.Disk? && s.layout.Vhdx? && s.layout.Valid()
    requires r < s.layout.blockSize && Position(g, s.layout.blockSize, r) < s.virtualSize
    ensures ByteAt(s, Position(g, s.layout.blockSize, r)) ==
            VhdxByte(s.inner, s.layout.batOffset, s.layout.chunkRatio, g, r)
  {
    var i := Position(g, s.layout.blockSize, r);
    DivModUnique(i, s.layout.blockSize, g, r);
    DiskByte(s, i, s.layout.blockSize, g, r);
    BlockBytes(s.inner, s.layout.batOffset, s.layout.blockSize, s.layout.chunkRatio, g, r);
  }

  lemma BlockBytes(inner: Source, batOffset: u64, block: u64, ratio: u64, g: nat, r: nat)
    requires ratio > 0
    ensures MeaningAt(inner, Locate(inner, Vhdx(batOffset, block, ratio), g), r) ==
            VhdxByte(inner, batOffset, ratio, g, r)
  {
    hide ByteAt, BatIndex, FromLE, Slice, Readable, BlockOffset, VhdxOffset;
    SlotInGroup(ratio, g);
    assert Locate(inner, Vhdx(batOffset, block, ratio), g) == LocateBlock(inner, batOffset, BatIndex(ratio, g));
    LittleEndianBytes(inner, batOffset + BatIndex(ratio, g) * 8, 8);
    var e := BytesAt(inner, batOffset + BatIndex(ratio, g) * 8, 8);
    if e.Some? {
      BlockBits(e.value);
    }
  }
}
