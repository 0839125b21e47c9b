/** Building blocks of image writers, and what a source that holds a written image reads back. */
module ImageParts {
  import opened Bytes
  import opened Sources

  /** The stack reads, everywhere, as `data`. */
  ghost predicate Holds(s: Source, data: seq<byte>) {
    s.Size() == |data| && forall i :: 0 <= i < |data| ==> ByteAt(s, i) == Some(data[i])
  }

  lemma HeldSlice(s: Source, data: seq<byte>, at: nat, n: nat)
    requires Holds(s, data) && at + n <= |data|
    ensures Readable(s, at, n) && Slice(s, at, n) == data[at..at + n]
  {
  }

  function Encoded(n: nat, width: nat, big: bool): (s: seq<byte>)
    ensures |s| == width
  {
    if big then ToBE(n, width) else ToLE(n, width)
  }

  lemma HeldNumber(s: Source, data: seq<byte>, at: nat, n: nat, width: nat, big: bool)
    requires Holds(s, data) && at + width <= |data|
    requires n < Capacity(width) && data[at..at + width] == Encoded(n, width, big)
    ensures big ==> BigEndianAt(s, at, width) == Some(n)
    ensures !big ==> LittleEndianAt(s, at, width) == Some(n)
  {
    HeldSlice(s, data, at, width);
    BigEndianRoundTrip(n, width);
    LittleEndianRoundTrip(n, width);
  }

  lemma HeldField(s: Source, data: seq<byte>, at: nat, n: nat, width: nat, big: bool)
    requires Holds(s, data) && at + width <= |data| && n < Capacity(width)
    requires forall k :: 0 <= k < width ==> data[at + k] == Encoded(n, width, big)[k]
    ensures big ==> BigEndianAt(s, at, width) == Some(n)
    ensures !big ==> LittleEndianAt(s, at, width) == Some(n)
  {
    assert data[at..at + width] == Encoded(n, width, big);
    HeldNumber(s, data, at, n, width, big);
  }

  /** A table of fixed-width numbers. */
  function Table(entries: seq<nat>, width: nat, big: bool): (t: seq<byte>)
    requires width > 0
    ensures |t| == |entries| * width
  {
    seq(|entries| * width, i requires 0 <= i < |entries| * width =>
      TableIndex(|entries|, width, i); Encoded(entries[i / width], width, big)[i % width])
  }

  lemma TableIndex(count: nat, width: nat, i: nat)
    requires width > 0 && i < count * width
    ensures 0 <= i / width < count && 0 <= i % width < width
  {
    if i / width >= count {
      MulMonotone(count, i / width, width);
    }
  }

  lemma TableEntry(entries: seq<nat>, width: nat, big: bool, j: nat)
    requires width > 0 && j < |entries|
    ensures (j + 1) * width <= |entries| * width
    ensures Table(entries, width, big)[j * width..(j + 1) * width] == Encoded(entries[j], width, big)
  {
    MulMonotone(j + 1, |entries|, width);
    var t := Table(entries, width, big);
    assert (j + 1) * width == j * width + width;
    forall k | 0 <= k < width
      ensures t[j * width + k] == Encoded(entries[j], width, big)[k]
    {
      DivModUnique(j * width + k, width, j, k);
    }
  }

  /** A table sitting after `pre` in a held image gives entry `j` back. */
  lemma HeldEntry(s: Source, pre: seq<byte>, entries: seq<nat>, post: seq<byte>, width: nat, big: bool, j: nat)
    requires width > 0 && j < |entries| && entries[j] < Capacity(width)
    requires Holds(s, pre + Table(entries, width, big) + post)
    ensures big ==> BigEndianAt(s, |pre| + j * width, width) == Some(entries[j])
    ensures !big ==> LittleEndianAt(s, |pre| + j * width, width) == Some(entries[j])
  {
    TableEntry(entries, width, big, j);
    var table := Table(entries, width, big);
    var data := pre + table + post;
    var lo, hi := j * width, (j + 1) * width;
    assert hi == lo + width;
    assert data[|pre| + lo..|pre| + hi] == table[lo..hi];
    HeldNumber(s, data, |pre| + lo, entries[j], width, big);
  }

  /** Byte `i` of a disk padded with zeros. */
  function Padded(disk: seq<byte>, i: nat): byte {
    if i < |disk| then disk[i] else 0
  }

  /** The units of `disk` listed in `order`, one after the other. */
  function Spread(disk: seq<byte>, order: seq<nat>, unit: nat): (d: seq<byte>)
    requires unit > 0
    ensures |d| == |order| * unit
  {
    seq(|order| * unit, i requires 0 <= i < |order| * unit =>
      TableIndex(|order|, unit, i); Padded(disk, order[i / unit] * unit + i % unit))
  }

  lemma SpreadByte(disk: seq<byte>, order: seq<nat>, unit: nat, k: nat, r: nat)
    requires k < |order| && r < unit
    ensures k * unit + r < |order| * unit
    ensures Spread(disk, order, unit)[k * unit + r] == Padded(disk, order[k] * unit + r)
  {
    MulMonotone(k + 1, |order|, unit);
    assert (k + 1) * unit == k * unit + unit;
    DivModUnique(k * unit + r, unit, k, r);
  }

  /** First position of `x`. */
  function IndexOf(s: seq<nat>, x: nat): (k: nat)
    requires x in s
    ensures k < |s| && s[k] == x
  {
    if s[0] == x then 0 else 1 + IndexOf(s[1..], x)
  }

  /** Every byte of `disk` outside the listed units is zero. */
  ghost predicate Covers(order: seq<nat>, disk: seq<byte>, unit: nat)
    requires unit > 0
  {
    forall i :: 0 <= i < |disk| && disk[i] != 0 ==> i / unit in order
  }

  /** Host offset the writer gave unit `g` when the listed units start at `base`. */
  ghost function Placed(order: seq<nat>, base: nat, unit: nat, g: nat): Location {
    if g in order then At(HostOf(order, base, unit, g)) else Hole
  }

  /** The container holds each mapped unit of the disk at its host offset, as far as the disk goes. */
  ghost predicate Stores(s: Source, disk: seq<byte>, unit: nat, hosts: map<nat, nat>) {
    forall i: nat, g: nat, r: nat :: Splits(i, unit, g, r) && i < |disk| && g in hosts ==>
      ByteAt(s, hosts[g] + r) == Some(disk[i])
  }

  /** However a container is laid out: if its tables map units to host offsets that store them, in any place
      and order, and leave holes only where the disk is zero, it reads as the disk. */
  lemma MappedDisk(s: Source, layout: Layout, disk: seq<byte>, unit: nat, count: nat, hosts: map<nat, nat>)
    requires unit == layout.Unit() > 0 && |disk| < U64_LIMIT && |disk| <= count * unit
    requires forall g :: 0 <= g < count ==> Locate(s, layout, g) == if g in hosts then At(hosts[g]) else Hole
    requires Stores(s, disk, unit, hosts)
    requires forall i :: 0 <= i < |disk| && disk[i] != 0 ==> i / unit in hosts
    ensures Holds(Disk(s, layout, |disk|), disk)
  {
    forall i | 0 <= i < |disk|
      ensures ByteAt(Disk(s, layout, |disk|), i) == Some(disk[i])
    {
      var g, r := Split(i, unit);
      TableIndex(count, unit, i);
      DiskByte(Disk(s, layout, |disk|), i, unit, g, r);
    }
  }

  /** An image whose tables name each listed unit where `Spread` put it, and a hole for any other, reads
      as the disk it was written from. */
  lemma Assembled(s: Source, layout: Layout, pre: seq<byte>, disk: seq<byte>, order: seq<nat>, unit: nat, count: nat)
    requires unit == layout.Unit() > 0 && |disk| < U64_LIMIT && Covers(order, disk, unit)
    requires Holds(s, pre + Spread(disk, order, unit))
    requires |disk| <= count * unit
    requires forall g :: 0 <= g < count ==> Locate(s, layout, g) == Placed(order, |pre|, unit, g)
    ensures Holds(Disk(s, layout, |disk|), disk)
  {
    hide ByteAt, Spread, Locate, HostOf, Stores;
    SpreadStores(s, pre, disk, order, unit);
    MappedDisk(s, layout, disk, unit, count, Hosts(order, |pre|, unit));
  }

  /** Where the writer puts each listed unit. */
  function Hosts(order: seq<nat>, base: nat, unit: nat): map<nat, nat> {
    map g | g in order :: HostOf(order, base, unit, g)
  }

  function HostOf(order: seq<nat>, base: nat, unit: nat, g: nat): nat
    requires g in order
  {
    base + IndexOf(order, g) * unit
  }

  lemma SpreadStores(s: Source, pre: seq<byte>, disk: seq<byte>, order: seq<nat>, unit: nat)
    requires unit > 0 && Holds(s, pre + Spread(disk, order, unit))
    ensures Stores(s, disk, unit, Hosts(order, |pre|, unit))
  {
    hide ByteAt, Spread;
    forall i: nat, g: nat, r: nat | Splits(i, unit, g, r) && i < |disk| && g in order
      ensures ByteAt(s, HostOf(order, |pre|, unit, g) + r) == Some(disk[i])
    {
      StoredByte(s, pre, disk, order, unit, IndexOf(order, g), r, i);
    }
  }

  lemma StoredByte(s: Source, pre: seq<byte>, disk: seq<byte>, order: seq<nat>, unit: nat, k: nat, r: nat, i: nat)
    requires unit > 0 && Holds(s, pre + Spread(disk, order, unit))
    requires k < |order| && Splits(i, unit, order[k], r)
    ensures ByteAt(s, |pre| + k * unit + r) == Some(Padded(disk, i))
  {
    SpreadByte(disk, order, unit, k, r);
    var data := pre + Spread(disk, order, unit);
    assert data[|pre| + (k * unit + r)] == Padded(disk, i);
  }

  lemma {:induction false} Zeros(width: nat)
    ensures forall k :: 0 <= k < width ==> ToBE(0, width)[k] == ToLE(0, width)[k] == 0
  {
    if width > 0 {
      Zeros(width - 1);
    }
  }

  lemma Sums(n: nat, m: nat, unit: nat)
    ensures (n + m) * unit == n * unit + m * unit
  {
  }
}
