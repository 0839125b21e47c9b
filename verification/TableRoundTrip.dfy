/** Which table a disk reads as, for every disk. */
module TableRoundTrip {
  import opened Bytes
  import opened Sources
  import opened Partitions
  import opened MbrRoundTrip
  import GptRoundTrip

  /** No GUID partition table lies on the disk. */
  ghost predicate NoGpt(s: Source) {
    forall l: GptRoundTrip.Layout, entries: seq<GptRoundTrip.GptEntry> :: !GptRoundTrip.HoldsGpt(s, l, entries)
  }

  function Whole(): PartitionTable {
    PartitionTable(Unpartitioned, [])
  }

  function MbrOrWhole(partitions: seq<Partition>): PartitionTable {
    if partitions == [] then Whole() else PartitionTable(Mbr, partitions)
  }

  lemma FallsThrough(s: Source)
    requires NoGpt(s)
    ensures TableOf(s) == match MbrOf(s) case Some(p) => PartitionTable(Mbr, p) case None => Whole()
  {
    hide GptOf, MbrOf, GptRoundTrip.HoldsGpt;
    GptRoundTrip.GptExact(s);
  }

  lemma NoSignature(s: Source)
    requires Readable(s, 512, 8) ==> Slice(s, 512, 8) != [0x45, 0x46, 0x49, 0x20, 0x50, 0x41, 0x52, 0x54]
    ensures NoGpt(s)
  {
    hide GptOf, MbrOf, GptRoundTrip.HoldsGpt, GptRoundTrip.Listed;
    GptRoundTrip.NoSignature(s);
    GptRoundTrip.GptExact(s);
  }

  /** Without GPT, any boot sector with an extended slot and a chain from it give an MBR of the ordinary slots
      and then the chain's volumes; if there are none, the disk is one volume. */
  lemma MbrTable(s: Source, k: nat, chain: seq<Ebr>)
    requires NoGpt(s) && Usable(s, 0) && ExtendedAt(SlotsOf(Slice(s, 0, SECTOR)), k)
    requires ChainOnDisk(s, SlotsOf(Slice(s, 0, SECTOR))[k].start, chain)
    ensures
      var primaries := Primaries(Kept(SlotsOf(Slice(s, 0, SECTOR))));
      TableOf(s) == MbrOrWhole(Volumes(chain[..Min(1024, |chain|)], primaries))
  {
    hide TableOf, MbrOf, NoGpt, Kept, Volumes, ByteAt, SlotsOf, ChainOnDisk, Usable, ExtendedAt;
    FallsThrough(s);
    MbrReadsBack(s, k, chain);
  }

  /** Without GPT, a boot sector with no extended slot gives an MBR of its ordinary slots. */
  lemma PrimariesTable(s: Source)
    requires NoGpt(s) && Usable(s, 0)
    requires forall k :: 0 <= k < 4 ==> !Extended(SlotsOf(Slice(s, 0, SECTOR))[k])
    ensures TableOf(s) == MbrOrWhole(Primaries(Kept(SlotsOf(Slice(s, 0, SECTOR)))))
  {
    hide TableOf, MbrOf, NoGpt, Kept, ByteAt, SlotsOf;
    FallsThrough(s);
    PrimariesReadBack(s);
  }

  /** Every disk without GPT and with an extended slot, whatever else it holds. */
  lemma AnyTable(s: Source, k: nat)
    requires NoGpt(s) && Usable(s, 0) && ExtendedAt(SlotsOf(Slice(s, 0, SECTOR)), k)
    ensures
      var slots := SlotsOf(Slice(s, 0, SECTOR));
      if Usable(s, slots[k].start) then
        exists chain :: |chain| <= 1024 && ChainOnDisk(s, slots[k].start, chain) &&
                        TableOf(s) == MbrOrWhole(Volumes(chain, Primaries(Kept(slots))))
      else TableOf(s) == MbrOrWhole(Primaries(Kept(slots)))
  {
    hide TableOf, MbrOf, NoGpt, Kept, Volumes, ByteAt, SlotsOf, ChainOnDisk;
    FallsThrough(s);
    AnyMbr(s, k);
    var slots := SlotsOf(Slice(s, 0, SECTOR));
    if Usable(s, slots[k].start) {
      var chain :| |chain| <= 1024 && ChainOnDisk(s, slots[k].start, chain) &&
                   MbrOf(s) == NoneIfEmpty(Volumes(chain, Primaries(Kept(slots))));
    }
  }

  /** A disk with neither table is one volume. */
  lemma NeitherTable(s: Source)
    requires NoGpt(s) && !Usable(s, 0)
    ensures TableOf(s) == Whole()
  {
    hide TableOf, MbrOf, NoGpt, Usable;
    FallsThrough(s);
    NotBootable(s);
  }

  /** A table lying on the disk wins over whatever boot sector it has. */
  lemma GptTable(s: Source, l: GptRoundTrip.Layout, entries: seq<GptRoundTrip.GptEntry>)
    requires GptRoundTrip.HoldsGpt(s, l, entries)
    ensures TableOf(s) == PartitionTable(Gpt, GptRoundTrip.Listed(entries))
  {
    hide TableOf, GptOf, GptRoundTrip.HoldsGpt, GptRoundTrip.Listed;
    GptRoundTrip.GptExact(s);
  }

  /** Round trip: a boot sector and chain written onto any disk with room, where nothing puts the GPT
      signature into sector 1, read back as scheme MBR with all their partitions. */
  lemma MbrTableRoundTrips(disk: seq<byte>, boot: seq<byte>, slots: Slots4, k: nat, chain: seq<Ebr>, forms: seq<Form>)
    requires |boot| == 446 && ExtendedAt(Plain(slots), k)
    requires SECTOR <= |disk| && Placeable(disk, slots[k].slot.start, chain) && Dressed(chain, forms)
    requires
      var boots := PutSector(disk, 0, BootSector(boot, slots));
      var written := WriteChain(boots, slots[k].slot.start, chain, forms, |chain|);
      |disk| >= 520 ==> written[512..520] != [0x45, 0x46, 0x49, 0x20, 0x50, 0x41, 0x52, 0x54]
    ensures
      var boots := PutSector(disk, 0, BootSector(boot, slots));
      var written := WriteChain(boots, slots[k].slot.start, chain, forms, |chain|);
      var expected := Volumes(chain[..Min(1024, |chain|)], Primaries(Kept(Plain(slots))));
      TableOf(Raw(written)) == MbrOrWhole(expected)
  {
    hide TableOf, MbrOf, NoGpt, Kept, Volumes, BootSector, WriteChain, PutSector;
    var boots := PutSector(disk, 0, BootSector(boot, slots));
    var written := WriteChain(boots, slots[k].slot.start, chain, forms, |chain|);
    MbrRoundTrips(disk, boot, slots, k, chain, forms);
    if Readable(Raw(written), 512, 8) {
      assert ByteAt(Raw(written), 519).Some?;
      RawBytes(written, 512, 8);
    }
    NoSignature(Raw(written));
    FallsThrough(Raw(written));
  }
}
