/** Boot records written to a disk and read back: primaries in slot order, then the chain of logical
    volumes. */
module MbrRoundTrip {
  import opened Bytes
  import opened Sources
  import opened Partitions

  // ----- sectors

  /** A slot as it lies on disk: the status byte and the cylinder, head and sector fields, which the reader
      ignores, around the three fields it reads. */
  datatype RawSlot = RawSlot(first: seq<byte>, last: seq<byte>, slot: Slot)
  {
    predicate Valid() { |first| == 4 && |last| == 3 }
  }

  type Slots4 = s: seq<RawSlot> | |s| == 4 && forall k :: 0 <= k < 4 ==> s[k].Valid()
    ghost witness seq(4, _ => RawSlot([0, 0, 0, 0], [0, 0, 0], EMPTY))

  const EMPTY: Slot := Slot(0, 0, 0)

  function SlotBytes(raw: RawSlot): (r: seq<byte>)
    requires raw.Valid()
    ensures |r| == 16
  {
    raw.first + [raw.slot.code] + raw.last + ToLE(raw.slot.start, 4) + ToLE(raw.slot.count, 4)
  }

  /** A boot sector with four slots and the signature; `boot` fills the code area. */
  function BootSector(boot: seq<byte>, slots: Slots4): (r: seq<byte>)
    requires |boot| == 446
    ensures |r| == SECTOR
  {
    boot + SlotBytes(slots[0]) + SlotBytes(slots[1]) + SlotBytes(slots[2]) + SlotBytes(slots[3]) + [0x55, 0xAA]
  }

  lemma SlotReads(sector: seq<byte>, at: nat, raw: RawSlot)
    requires raw.Valid() && at + 16 <= |sector| && sector[at..at + 16] == SlotBytes(raw)
    ensures ParseSlot(sector, at) == raw.slot
  {
    hide ToLE, FromLE;
    Capacities();
    var bytes, slot := SlotBytes(raw), raw.slot;
    LittleEndianRoundTrip(slot.start, 4);
    LittleEndianRoundTrip(slot.count, 4);
    assert sector[at + 4] == sector[at..at + 16][4] == bytes[4];
    Within(sector, at, at + 16, 8, 12);
    Within(sector, at, at + 16, 12, 16);
    assert bytes[8..12] == ToLE(slot.start, 4);
    assert bytes[12..16] == ToLE(slot.count, 4);
  }

  lemma Within(s: seq<byte>, a: nat, b: nat, c: nat, d: nat)
    requires a <= b <= |s| && c <= d <= b - a
    ensures s[a..b][c..d] == s[a + c..a + d]
  {
    forall k | 0 <= k < d - c
      ensures s[a..b][c..d][k] == s[a + c..a + d][k]
    {
      assert s[a..b][c + k] == s[a + c + k];
    }
  }

  /** The slots a sector holds, whatever lies around their fields. */
  function SlotsOf(sector: seq<byte>): (r: seq<Slot>)
    requires |sector| == SECTOR
    ensures |r| == 4
  {
    seq(4, k requires 0 <= k < 4 => ParseSlot(sector, 446 + 16 * k))
  }

  function Plain(slots: Slots4): (r: seq<Slot>)
    ensures |r| == 4
  {
    seq(4, k requires 0 <= k < 4 => slots[k].slot)
  }

  lemma BootSectorReads(boot: seq<byte>, slots: Slots4)
    requires |boot| == 446
    ensures Signed(BootSector(boot, slots)) && SlotsOf(BootSector(boot, slots)) == Plain(slots)
  {
    hide SlotBytes, ParseSlot;
    var sector := BootSector(boot, slots);
    assert sector[446..462] == SlotBytes(slots[0]);
    assert sector[462..478] == SlotBytes(slots[1]);
    assert sector[478..494] == SlotBytes(slots[2]);
    assert sector[494..510] == SlotBytes(slots[3]);
    SlotReads(sector, 446, slots[0]);
    SlotReads(sector, 462, slots[1]);
    SlotReads(sector, 478, slots[2]);
    SlotReads(sector, 494, slots[3]);
  }

  // ----- primary slots

  /** A slot that names a primary partition. */
  predicate Ordinary(slot: Slot) {
    slot.code !in {0x00, 0xEE, 0x05, 0x0F, 0x85} && slot.count > 0
  }

  predicate Extended(slot: Slot) {
    slot.code in {0x05, 0x0F, 0x85}
  }

  /** The ordinary slots, in slot order. */
  function Kept(slots: seq<Slot>): seq<Slot> {
    if slots == [] then [] else
    var last := slots[|slots| - 1];
    Kept(slots[..|slots| - 1]) + if Ordinary(last) then [last] else []
  }

  function Primaries(slots: seq<Slot>): seq<Partition> {
    seq(|slots|, k requires 0 <= k < |slots| =>
      Partition(k, MbrKind(slots[k].code), slots[k].start * SECTOR, slots[k].count * SECTOR, None))
  }

  /** Slot `k` is the extended partition, the last one if a table names several. */
  ghost predicate ExtendedAt(slots: seq<Slot>, k: nat) {
    k < |slots| && Extended(slots[k]) && forall j :: k < j < |slots| ==> !Extended(slots[j])
  }

  /** Four slots, in any arrangement: the ordinary ones are listed in slot order, and the last extended
      one starts the chain. */
  lemma MbrSlots(sector: seq<byte>)
    requires |sector| == SECTOR
    ensures ParseSlots(sector, 4).primaries == Primaries(Kept(SlotsOf(sector)))
    ensures ParseSlots(sector, 4).extended.None? <==> forall k :: 0 <= k < 4 ==> !Extended(SlotsOf(sector)[k])
    ensures forall k: nat :: ExtendedAt(SlotsOf(sector), k) ==>
              ParseSlots(sector, 4).extended == Some(SlotsOf(sector)[k].start)
  {
    hide ParseSlot, Kept, AddSlot;
    SlotsFolded(sector, 4);
    assert SlotsOf(sector)[..4] == SlotsOf(sector);
    FoldPrimaries(SlotsOf(sector));
    FoldExtended(SlotsOf(sector));
  }

  /** The reader's pass over the slots. */
  function Folded(slots: seq<Slot>): Slots {
    if slots == [] then Slots([], None) else AddSlot(Folded(slots[..|slots| - 1]), slots[|slots| - 1])
  }

  lemma {:induction false} SlotsFolded(sector: seq<byte>, n: nat)
    requires |sector| == SECTOR && n <= 4
    ensures ParseSlots(sector, n) == Folded(SlotsOf(sector)[..n])
  {
    hide ParseSlot, AddSlot;
    if n > 0 {
      SlotsFolded(sector, n - 1);
      assert SlotsOf(sector)[..n][..n - 1] == SlotsOf(sector)[..n - 1];
    }
  }

  lemma {:induction false} FoldPrimaries(slots: seq<Slot>)
    ensures Folded(slots).primaries == Primaries(Kept(slots))
  {
    if slots != [] {
      FoldPrimaries(slots[..|slots| - 1]);
      PrimariesGrow(Kept(slots[..|slots| - 1]), slots[|slots| - 1]);
    }
  }

  lemma {:induction false} FoldExtended(slots: seq<Slot>)
    ensures Folded(slots).extended.None? <==> forall k :: 0 <= k < |slots| ==> !Extended(slots[k])
    ensures forall k: nat :: ExtendedAt(slots, k) ==> Folded(slots).extended == Some(slots[k].start)
  {
    if slots != [] {
      var before, last := slots[..|slots| - 1], slots[|slots| - 1];
      FoldExtended(before);
      forall k: nat | ExtendedAt(slots, k)
        ensures Folded(slots).extended == Some(slots[k].start)
      {
        if k < |before| {
          assert !Extended(slots[|before|]) && before[k] == slots[k] && ExtendedAt(before, k);
        }
      }
    }
  }

  lemma PrimariesGrow(slots: seq<Slot>, slot: Slot)
    ensures Primaries(slots + [slot]) == Primaries(slots) +
            [Partition(|slots|, MbrKind(slot.code), slot.start * SECTOR, slot.count * SECTOR, None)]
  {
  }

  // ----- chains

  type Lba = n: nat | n <= 2 * U32_LIMIT

  /** One extended boot record: where it lies and the logical volume it describes. */
  datatype Ebr = Ebr(lba: Lba, volume: Slot)

  /** The volumes of a chain, in chain order, at absolute positions and with consecutive indices. */
  function Volumes(chain: seq<Ebr>, found: seq<Partition>): seq<Partition> {
    if chain == [] then found else
    var e, v := chain[0], chain[0].volume;
    Volumes(chain[1..],
      if v.code == 0 || v.count == 0 then found else
      found + [Partition(|found|, MbrKind(v.code), (e.lba + v.start) * SECTOR, v.count * SECTOR, None)])
  }

  /** A readable sector with the signature. */
  ghost predicate Usable(s: Source, lba: nat) {
    Readable(s, lba * SECTOR, SECTOR) && Slice(s, lba * SECTOR, SECTOR)[510..512] == [0x55, 0xAA]
  }

  lemma SignedSector(sector: seq<byte>)
    requires |sector| == SECTOR
    ensures Signed(sector) <==> sector[510..512] == [0x55, 0xAA]
  {
    assert sector[510..512][0] == sector[510] && sector[510..512][1] == sector[511];
  }

  /** A disk without a usable boot sector has no such table. */
  lemma NotBootable(s: Source)
    ensures !Usable(s, 0) ==> MbrOf(s) == None
  {
    hide ByteAt, ParseSlots, Walk, Signed;
    if Readable(s, 0, SECTOR) {
      SignedSector(Slice(s, 0, SECTOR));
    }
  }

  ghost function SlotAt(s: Source, lba: nat, at: nat): Slot
    requires Usable(s, lba) && at + 16 <= SECTOR
  {
    ParseSlot(Slice(s, lba * SECTOR, SECTOR), at)
  }

  /** Record `j` describes its volume and links to the next record; a last one below the limit ends the
      chain, with no link, a link to itself or a link to nothing usable. Every other byte is free. */
  ghost predicate RecordAt(s: Source, base: u32, chain: seq<Ebr>, j: nat, limit: nat)
    requires j < |chain|
  {
    && Usable(s, chain[j].lba)
    && SlotAt(s, chain[j].lba, 446) == chain[j].volume
    && var link := SlotAt(s, chain[j].lba, 462).start;
       if j + 1 < |chain| then link > 0 && base + link == chain[j + 1].lba != chain[j].lba
       else j + 1 >= limit || link == 0 || base + link == chain[j].lba || !Usable(s, base + link)
  }

  /** A chain of boot records on a disk. Records may repeat, as when links form a cycle. */
  ghost predicate ChainOnDisk(s: Source, base: u32, chain: seq<Ebr>) {
    && chain != [] && chain[0].lba == base
    && forall j :: 0 <= j < |chain| ==> RecordAt(s, base, chain, j, MAX_EBRS)
  }

  lemma WalkStep(s: Source, base: u32, chain: seq<Ebr>, j: nat, left: nat, found: seq<Partition>)
    requires j < |chain| && RecordAt(s, base, chain, j, MAX_EBRS) && 0 < left <= MAX_EBRS - j
    ensures
      var more := AddVolume(found, chain[j].lba, chain[j].volume);
      Walk(s, base, chain[j].lba, left, found) ==
      if j + 1 < |chain| then Walk(s, base, chain[j + 1].lba, left - 1, more) else more
  {
    hide ParseSlot, ByteAt, AddVolume;
  }

  /** The walk over a chain collects exactly its volumes; of a chain longer than the 1024-sector limit,
      those of the first 1024 records. */
  lemma {:induction false} WalkFollows(s: Source, base: u32, chain: seq<Ebr>, j: nat, left: nat, found: seq<Partition>)
    requires ChainOnDisk(s, base, chain) && j < |chain| && j + left <= MAX_EBRS
    ensures Walk(s, base, chain[j].lba, left, found) == Volumes(chain[j..Min(j + left, |chain|)], found)
    decreases left
  {
    hide RecordAt, AddVolume;
    if left == 0 {
      assert chain[j..j] == [];
    } else {
      WalkStep(s, base, chain, j, left, found);
      hide Walk;
      var more := AddVolume(found, chain[j].lba, chain[j].volume);
      var part := chain[j..Min(j + left, |chain|)];
      assert part[0] == chain[j] && part[1..] == chain[j + 1..Min(j + left, |chain|)];
      VolumesStep(part, found);
      if j + 1 < |chain| {
        WalkFollows(s, base, chain, j + 1, left - 1, more);
      } else {
        assert part[1..] == [];
      }
    }
  }

  lemma VolumesStep(chain: seq<Ebr>, found: seq<Partition>)
    requires chain != []
    ensures Volumes(chain, found) == Volumes(chain[1..], AddVolume(found, chain[0].lba, chain[0].volume))
  {
  }

  /** The records a walk visits from `ebr` on. */
  ghost function Visited(s: Source, base: u32, ebr: Lba, limit: nat): seq<Ebr>
    requires Usable(s, ebr)
    decreases limit
  {
    var link := SlotAt(s, ebr, 462).start;
    [Ebr(ebr, SlotAt(s, ebr, 446))] +
    if limit <= 1 || link == 0 || base + link == ebr || !Usable(s, base + link) then []
    else Visited(s, base, base + link, limit - 1)
  }

  lemma RecordShifts(s: Source, base: u32, rest: seq<Ebr>, chain: seq<Ebr>, j: nat, limit: nat)
    requires 0 < j < |chain| == |rest| + 1 && limit > 0 && RecordAt(s, base, rest, j - 1, limit - 1)
    requires chain[j] == rest[j - 1] && (j + 1 < |chain| ==> chain[j + 1] == rest[j])
    ensures RecordAt(s, base, chain, j, limit)
  {
    hide Usable, SlotAt;
  }

  /** Whatever a disk holds, what the walk visits is a chain. */
  lemma {:induction false} VisitedChain(s: Source, base: u32, ebr: Lba, limit: nat)
    requires Usable(s, ebr)
    ensures
      var chain := Visited(s, base, ebr, limit);
      && chain != [] && chain[0].lba == ebr && |chain| <= Max(limit, 1)
      && forall j :: 0 <= j < |chain| ==> RecordAt(s, base, chain, j, limit)
    decreases limit
  {
    hide Usable, SlotAt;
    var link, chain := SlotAt(s, ebr, 462).start, Visited(s, base, ebr, limit);
    if !(limit <= 1 || link == 0 || base + link == ebr || !Usable(s, base + link)) {
      var rest := Visited(s, base, base + link, limit - 1);
      VisitedChain(s, base, base + link, limit - 1);
      forall j | 0 <= j < |chain|
        ensures RecordAt(s, base, chain, j, limit)
      {
        if j > 0 {
          assert chain[j] == rest[j - 1] && (j + 1 < |chain| ==> chain[j + 1] == rest[j]);
          RecordShifts(s, base, rest, chain, j, limit);
        }
      }
    }
  }

  // ----- the whole table

  ghost function NoneIfEmpty(partitions: seq<Partition>): Option<seq<Partition>> {
    if partitions == [] then None else Some(partitions)
  }

  /** A disk whose boot sector has no extended slot reads as its ordinary slots, in slot order. */
  lemma PrimariesReadBack(s: Source)
    requires Usable(s, 0)
    requires forall k :: 0 <= k < 4 ==> !Extended(SlotsOf(Slice(s, 0, SECTOR))[k])
    ensures MbrOf(s) == NoneIfEmpty(Primaries(Kept(SlotsOf(Slice(s, 0, SECTOR)))))
  {
    hide SlotsOf, ParseSlots, Kept, Walk, ByteAt;
    MbrSlots(Slice(s, 0, SECTOR));
  }

  /** A disk with any boot sector and, from its extended slot on, a chain: the table is the ordinary slots
      in slot order and then the logical volumes of the first 1024 records in chain order. */
  lemma MbrReadsBack(s: Source, k: nat, chain: seq<Ebr>)
    requires Usable(s, 0) && ExtendedAt(SlotsOf(Slice(s, 0, SECTOR)), k)
    requires ChainOnDisk(s, SlotsOf(Slice(s, 0, SECTOR))[k].start, chain)
    ensures
      var primaries := Primaries(Kept(SlotsOf(Slice(s, 0, SECTOR))));
      MbrOf(s) == NoneIfEmpty(Volumes(chain[..Min(1024, |chain|)], primaries))
  {
    hide SlotsOf, ParseSlots, Kept, Volumes, Walk, RecordAt, ByteAt;
    var sector := Slice(s, 0, SECTOR);
    var base := SlotsOf(sector)[k].start;
    MbrSlots(sector);
    WalkFollows(s, base, chain, 0, MAX_EBRS, Primaries(Kept(SlotsOf(sector))));
    assert chain[0..Min(1024, |chain|)] == chain[..Min(1024, |chain|)];
  }

  /** Every disk with an extended slot, whatever its bytes: the table is the ordinary slots followed by the
      volumes of a chain that lies on the disk, or the ordinary slots alone when no chain starts there. */
  lemma AnyMbr(s: Source, k: nat)
    requires Usable(s, 0) && ExtendedAt(SlotsOf(Slice(s, 0, SECTOR)), k)
    ensures
      var slots := SlotsOf(Slice(s, 0, SECTOR));
      if Usable(s, slots[k].start) then
        exists chain :: |chain| <= 1024 && ChainOnDisk(s, slots[k].start, chain) &&
                        MbrOf(s) == NoneIfEmpty(Volumes(chain, Primaries(Kept(slots))))
      else MbrOf(s) == NoneIfEmpty(Primaries(Kept(slots)))
  {
    hide SlotsOf, ParseSlots, ParseSlot, Kept, RecordAt, ByteAt, AddVolume;
    var slots := SlotsOf(Slice(s, 0, SECTOR));
    var base := slots[k].start;
    MbrSlots(Slice(s, 0, SECTOR));
    if Usable(s, base) {
      SomeChain(s, base);
      hide Walk, Volumes, MbrOf, ChainOnDisk;
      var chain :| |chain| <= 1024 && ChainOnDisk(s, base, chain);
      MbrReadsBack(s, k, chain);
      assert chain[..Min(1024, |chain|)] == chain;
    } else {
      NoWalk(s, base, Primaries(Kept(slots)));
    }
  }

  lemma SomeChain(s: Source, base: u32)
    requires Usable(s, base)
    ensures exists chain :: |chain| <= 1024 && ChainOnDisk(s, base, chain)
  {
    hide Usable, RecordAt;
    VisitedChain(s, base, base, 1024);
    assert ChainOnDisk(s, base, Visited(s, base, base, 1024));
  }

  lemma NoWalk(s: Source, base: u32, found: seq<Partition>)
    requires !Usable(s, base)
    ensures Walk(s, base, base, MAX_EBRS, found) == found
  {
    hide ByteAt, Signed, ParseSlot;
    if Readable(s, base * SECTOR, SECTOR) {
      SignedSector(Slice(s, base * SECTOR, SECTOR));
    }
  }

  // ----- writing

  function PutSector(disk: seq<byte>, lba: nat, sector: seq<byte>): (r: seq<byte>)
    requires |sector| == SECTOR && (lba + 1) * SECTOR <= |disk|
    ensures |r| == |disk|
    ensures forall i :: 0 <= i < |disk| ==>
      r[i] == if lba * SECTOR <= i < (lba + 1) * SECTOR then sector[i - lba * SECTOR] else disk[i]
  {
    Put(disk, lba * SECTOR, sector)
  }

  /** How a record is dressed: its boot code, the ignored bytes of its slots and the two unused slots. */
  datatype Form = Form(boot: seq<byte>, slots: Slots4)

  /** Records at distinct sectors of the disk past the boot sector, the first at the base, the others within
      reach of a 32-bit offset. */
  ghost predicate Placeable(disk: seq<byte>, base: u32, chain: seq<Ebr>) {
    && chain != [] && chain[0].lba == base
    && (forall j :: 0 < j < |chain| ==> base < chain[j].lba < base + U32_LIMIT)
    && (forall i, j :: 0 <= i < j < |chain| ==> chain[i].lba != chain[j].lba)
    && (forall j :: 0 <= j < |chain| ==> 0 < chain[j].lba && (chain[j].lba + 1) * SECTOR <= |disk|)
  }

  ghost predicate Dressed(chain: seq<Ebr>, forms: seq<Form>) {
    |forms| == |chain| && forall j :: 0 <= j < |forms| ==> |forms[j].boot| == 446
  }

  /** Record `j` as it is written: its link is the next record's distance from the base, or zero. */
  ghost function EbrSector(disk: seq<byte>, base: u32, chain: seq<Ebr>, forms: seq<Form>, j: nat): (r: seq<byte>)
    requires Placeable(disk, base, chain) && Dressed(chain, forms) && j < |chain|
    ensures |r| == SECTOR
  {
    var slots := forms[j].slots;
    var volume := slots[0].(slot := chain[j].volume);
    var next: u32 := if j + 1 < |chain| then chain[j + 1].lba - base else 0;
    var link := slots[1].(slot := slots[1].slot.(start := next));
    BootSector(forms[j].boot, [volume, link, slots[2], slots[3]])
  }

  /** The disk with the first `n` records of the chain written. */
  ghost function WriteChain(disk: seq<byte>, base: u32, chain: seq<Ebr>, forms: seq<Form>, n: nat): (r: seq<byte>)
    requires Placeable(disk, base, chain) && Dressed(chain, forms) && n <= |chain|
    ensures |r| == |disk|
  {
    if n == 0 then disk else
    PutSector(WriteChain(disk, base, chain, forms, n - 1), chain[n - 1].lba, EbrSector(disk, base, chain, forms, n - 1))
  }

  ghost predicate HoldsSector(disk: seq<byte>, lba: nat, sector: seq<byte>) {
    (lba + 1) * SECTOR <= |disk| && disk[lba * SECTOR..(lba + 1) * SECTOR] == sector
  }

  lemma {:induction false} ChainKept(disk: seq<byte>, base: u32, chain: seq<Ebr>, forms: seq<Form>, n: nat,
                                     mbr: seq<byte>)
    requires Placeable(disk, base, chain) && Dressed(chain, forms) && n <= |chain|
    requires HoldsSector(disk, 0, mbr)
    ensures HoldsSector(WriteChain(disk, base, chain, forms, n), 0, mbr)
    ensures forall j :: 0 <= j < n ==>
      HoldsSector(WriteChain(disk, base, chain, forms, n), chain[j].lba, EbrSector(disk, base, chain, forms, j))
  {
    hide EbrSector, PutSector, HoldsSector;
    if n > 0 {
      var before := WriteChain(disk, base, chain, forms, n - 1);
      var lba, sector := chain[n - 1].lba, EbrSector(disk, base, chain, forms, n - 1);
      ChainKept(disk, base, chain, forms, n - 1, mbr);
      SectorPut(before, lba, sector);
      OtherKept(before, lba, sector, 0, mbr);
      forall j | 0 <= j < n - 1
        ensures HoldsSector(PutSector(before, lba, sector), chain[j].lba, EbrSector(disk, base, chain, forms, j))
      {
        OtherKept(before, lba, sector, chain[j].lba, EbrSector(disk, base, chain, forms, j));
      }
    }
  }

  lemma SectorPut(disk: seq<byte>, lba: nat, sector: seq<byte>)
    requires |sector| == SECTOR && (lba + 1) * SECTOR <= |disk|
    ensures HoldsSector(PutSector(disk, lba, sector), lba, sector)
  {
  }

  lemma OtherKept(disk: seq<byte>, lba: nat, sector: seq<byte>, other: nat, kept: seq<byte>)
    requires |sector| == SECTOR && (lba + 1) * SECTOR <= |disk| && other != lba && HoldsSector(disk, other, kept)
    ensures HoldsSector(PutSector(disk, lba, sector), other, kept)
  {
  }

  lemma RecordWritten(disk: seq<byte>, base: u32, chain: seq<Ebr>, forms: seq<Form>, j: nat, s: Source)
    requires Placeable(disk, base, chain) && Dressed(chain, forms) && j < |chain|
    requires Readable(s, chain[j].lba * SECTOR, SECTOR)
    requires Slice(s, chain[j].lba * SECTOR, SECTOR) == EbrSector(disk, base, chain, forms, j)
    ensures RecordAt(s, base, chain, j, MAX_EBRS)
  {
    hide ParseSlot, ByteAt, BootSector;
    var slots := forms[j].slots;
    var volume := slots[0].(slot := chain[j].volume);
    var next: u32 := if j + 1 < |chain| then chain[j + 1].lba - base else 0;
    var link := slots[1].(slot := slots[1].slot.(start := next));
    var written := [volume, link, slots[2], slots[3]];
    BootSectorReads(forms[j].boot, written);
    var sector := EbrSector(disk, base, chain, forms, j);
    assert SlotsOf(sector)[0] == volume.slot && SlotsOf(sector)[1] == link.slot;
    assert Usable(s, chain[j].lba);
  }

  /** Round trip: writing a boot sector, its four slots in any arrangement with an extended one, and a chain
      of records onto any disk with room for them, and reading the table of the result. */
  lemma MbrRoundTrips(disk: seq<byte>, boot: seq<byte>, slots: Slots4, k: nat, chain: seq<Ebr>, forms: seq<Form>)
    requires |boot| == 446 && ExtendedAt(Plain(slots), k)
    requires SECTOR <= |disk| && Placeable(disk, slots[k].slot.start, chain) && Dressed(chain, forms)
    ensures
      var boots := PutSector(disk, 0, BootSector(boot, slots));
      var written := WriteChain(boots, slots[k].slot.start, chain, forms, |chain|);
      var expected := Volumes(chain[..Min(1024, |chain|)], Primaries(Kept(Plain(slots))));
      MbrOf(Raw(written)) == NoneIfEmpty(expected)
  {
    hide BootSector, SlotsOf, EbrSector, PutSector, WriteChain, MbrOf, Volumes, Kept, Slice, RecordAt;
    var mbr, base := BootSector(boot, slots), slots[k].slot.start;
    var boots := PutSector(disk, 0, mbr);
    SectorPut(disk, 0, mbr);
    ChainKept(boots, base, chain, forms, |chain|, mbr);
    var written := WriteChain(boots, base, chain, forms, |chain|);
    RawBytes(written, 0, SECTOR);
    BootSectorReads(boot, slots);
    forall j | 0 <= j < |chain|
      ensures RecordAt(Raw(written), base, chain, j, MAX_EBRS)
    {
      RawBytes(written, chain[j].lba * SECTOR, SECTOR);
      RecordWritten(boots, base, chain, forms, j, Raw(written));
    }
    MbrReadsBack(Raw(written), k, chain);
  }
}
