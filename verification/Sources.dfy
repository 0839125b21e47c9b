/** Layered byte sources: a raw image, a window on another source, and the three virtual-disk readers.
    A stack of any depth is one `Source` value. `ByteAt` gives each byte its meaning, one lookup at a
    time; the methods read in bulk, through short reads, clusters and tables, and are proved to deliver
    exactly those bytes. */
module Sources {
  import opened Bytes

  /** The tables a virtual-disk reader consults, as its `open` leaves them. */
  datatype Layout =
    | Qcow2(l1Offset: u64, l1Size: u32, clusterSize: u64)
    | Vmdk(gdOffset: u64, gtesPerGt: u32, grainBytes: u64)
    | Vhdx(batOffset: u64, blockSize: u64, chunkRatio: u64)
  {
    predicate Valid() {
      match this
      case Qcow2(_, _, clusterSize) => 512 <= clusterSize <= 0x20_0000 && clusterSize % 8 == 0
      // The reader adds a grain's host offset (below 2^41) and an offset in the grain without a check.
      case Vmdk(_, gtesPerGt, grainBytes) => gtesPerGt > 0 && 512 <= grainBytes <= U64_LIMIT - 0x200_0000_0000
      case Vhdx(_, blockSize, chunkRatio) => 0x10_0000 <= blockSize <= 0x1000_0000 && chunkRatio > 0
    }

    /** Size of the cluster, grain or block one table entry maps. */
    function Unit(): u64 {
      match this
      case Qcow2(_, _, clusterSize) => clusterSize
      case Vmdk(_, _, grainBytes) => grainBytes
      case Vhdx(_, blockSize, _) => blockSize
    }
  }

  datatype Source =
    | Raw(data: seq<byte>)
    | Window(inner: Source, offset: u64, len: u64)
    | Disk(inner: Source, layout: Layout, virtualSize: u64)
  {
    function Size(): nat {
      match this
      case Raw(data) => |data|
      case Window(_, _, len) => len
      case Disk(_, _, virtualSize) => virtualSize
    }

    predicate Valid() {
      match this
      case Raw(data) => |data| < U64_LIMIT
      case Window(inner, offset, len) => inner.Valid() && offset + len <= inner.Size()
      case Disk(inner, layout, _) => inner.Valid() && layout.Valid()
    }
  }

  /** Where one cluster, grain or block lives: its table entry cannot be read or used, it is a hole, or
      it starts at a host offset of the container. */
  datatype Location = Unresolvable | Hole | At(host: nat)

  // ----- meaning of a stack, one byte at a time

  /** Byte `i` of a stack, or None when it lies past the end or cannot be resolved. */
  ghost function ByteAt(s: Source, i: nat): Option<byte>
    decreases s, 0
  {
    if i >= s.Size() then None else
    match s
    case Raw(data) => Some(data[i])
    case Window(inner, offset, _) => ByteAt(inner, offset + i)
    case Disk(inner, layout, _) =>
      if layout.Unit() == 0 then None else
      match Locate(inner, layout, i / layout.Unit())
      case Unresolvable => None
      case Hole => Some(0)
      case At(host) => ByteAt(inner, host + i % layout.Unit())
  }

  ghost predicate Readable(s: Source, at: nat, n: nat)
    decreases s, 1
  {
    forall i :: at <= i < at + n ==> ByteAt(s, i).Some?
  }

  ghost function Slice(s: Source, at: nat, n: nat): (r: seq<byte>)
    requires Readable(s, at, n)
    ensures |r| == n
    decreases s, 2
  {
    seq(n, k requires 0 <= k < n => ByteAt(s, at + k).value)
  }

  ghost function BigEndianAt(s: Source, at: nat, width: nat): Option<nat>
    decreases s, 3
  {
    if Readable(s, at, width) then Some(FromBE(Slice(s, at, width))) else None
  }

  ghost function LittleEndianAt(s: Source, at: nat, width: nat): Option<nat>
    decreases s, 3
  {
    if Readable(s, at, width) then Some(FromLE(Slice(s, at, width))) else None
  }

  ghost function BytesAt(s: Source, at: nat, n: nat): Option<seq<byte>>
    decreases s, 3
  {
    if Readable(s, at, n) then Some(Slice(s, at, n)) else None
  }

  /** QCOW2 `entry & 0x00ff_ffff_ffff_fe00`: bits 9 to 55. */
  function Qcow2Offset(entry: nat): nat {
    entry % 0x100_0000_0000_0000 / 0x200 * 0x200
  }

  /** QCOW2 `entry & (1 << 62)`. */
  predicate Qcow2Compressed(entry: nat) {
    entry / 0x4000_0000_0000_0000 % 2 == 1
  }

  /** VHDX `entry & 0xffff_ffff_fff0_0000` of a 64-bit entry: everything from bit 20 up. */
  function VhdxOffset(entry: nat): nat {
    entry / 0x10_0000 * 0x10_0000
  }

  /** The table lookup for one unit of a virtual disk stored in `inner`. */
  ghost function Locate(inner: Source, layout: Layout, unit: nat): Location
    decreases inner, 5
  {
    match layout
    case Qcow2(l1Offset, l1Size, clusterSize) =>
      if clusterSize < 8 then Unresolvable else
      LocateCluster(inner, l1Offset, l1Size, Quotient(unit, clusterSize / 8), Remainder(unit, clusterSize / 8))
    case Vmdk(gdOffset, gtesPerGt, _) =>
      if gtesPerGt == 0 then Unresolvable else
      LocateGrain(inner, gdOffset, Quotient(unit, gtesPerGt), Remainder(unit, gtesPerGt))
    case Vhdx(batOffset, _, chunkRatio) =>
      if chunkRatio == 0 then Unresolvable else
      LocateBlock(inner, batOffset, BatIndex(chunkRatio, unit))
  }

  /** Slot `l1Index` of the L1 table names an L2 table; slot `l2Index` of that names the cluster. */
  ghost function LocateCluster(inner: Source, l1Offset: nat, l1Size: nat, l1Index: nat, l2Index: nat): Location
    decreases inner, 4
  {
    if l1Index >= l1Size then Hole else
    match BigEndianAt(inner, l1Offset + l1Index * 8, 8)
    case None => Unresolvable
    case Some(l1Entry) =>
      if Qcow2Offset(l1Entry) == 0 then Hole else
      match BigEndianAt(inner, Qcow2Offset(l1Entry) + l2Index * 8, 8)
      case None => Unresolvable
      case Some(entry) =>
        if Qcow2Compressed(entry) then Unresolvable
        else if Qcow2Offset(entry) == 0 then Hole
        else At(Qcow2Offset(entry))
  }

  ghost function LocateGrain(inner: Source, gdOffset: nat, gdIndex: nat, gtIndex: nat): Location
    decreases inner, 4
  {
    match LittleEndianAt(inner, gdOffset * 512 + gdIndex * 4, 4)
    case None => Unresolvable
    case Some(gtSector) =>
      if gtSector == 0 then Hole else
      match LittleEndianAt(inner, gtSector * 512 + gtIndex * 4, 4)
      case None => Unresolvable
      case Some(grainSector) => if grainSector == 0 then Hole else At(grainSector * 512)
  }

  ghost function LocateBlock(inner: Source, batOffset: nat, index: nat): Location
    decreases inner, 4
  {
    match LittleEndianAt(inner, batOffset + index * 8, 8)
    case None => Unresolvable
    case Some(entry) => if entry % 8 != 6 then Hole else At(VhdxOffset(entry))
  }

  /** Slot of a payload block in the interleaved VHDX block allocation table. */
  function BatIndex(chunkRatio: nat, block: nat): nat
    requires chunkRatio > 0
  {
    block + block / chunkRatio
  }

  /** A raw source reads as its bytes. */
  lemma RawBytes(data: seq<byte>, at: nat, n: nat)
    requires at + n <= |data|
    ensures Readable(Raw(data), at, n) && Slice(Raw(data), at, n) == data[at..at + n]
  {
  }

  lemma BigEndianBytes(s: Source, at: nat, width: nat)
    ensures BigEndianAt(s, at, width) ==
            match BytesAt(s, at, width) case None => None case Some(bytes) => Some(FromBE(bytes))
  {
  }

  lemma LittleEndianBytes(s: Source, at: nat, width: nat)
    ensures LittleEndianAt(s, at, width) ==
            match BytesAt(s, at, width) case None => None case Some(bytes) => Some(FromLE(bytes))
  {
  }

  /** These bytes lie there. */
  ghost predicate Stored(s: Source, at: nat, bytes: seq<byte>) {
    BytesAt(s, at, |bytes|) == Some(bytes)
  }

  /** Other bytes lie there. */
  ghost predicate Differs(s: Source, at: nat, bytes: seq<byte>) {
    BytesAt(s, at, |bytes|).Some? && BytesAt(s, at, |bytes|) != Some(bytes)
  }

  /** A field decodes to a number exactly when the number's encoding lies there. */
  lemma StoredNumber(s: Source, at: nat, n: nat, width: nat)
    requires n < Capacity(width)
    ensures BigEndianAt(s, at, width) == Some(n) <==> Stored(s, at, ToBE(n, width))
    ensures LittleEndianAt(s, at, width) == Some(n) <==> Stored(s, at, ToLE(n, width))
  {
    hide ByteAt, Slice, FromBE, FromLE;
    BigEndianBytes(s, at, width);
    LittleEndianBytes(s, at, width);
    BigEndianRoundTrip(n, width);
    LittleEndianRoundTrip(n, width);
    if BytesAt(s, at, width).Some? {
      BigEndianStored(BytesAt(s, at, width).value);
      LittleEndianStored(BytesAt(s, at, width).value);
    }
  }

  /** A field that can be read holds some number's encoding, and one only. */
  lemma SomeNumber(s: Source, at: nat, width: nat)
    ensures BytesAt(s, at, width).Some? <==> BigEndianAt(s, at, width).Some?
    ensures BytesAt(s, at, width).Some? <==> LittleEndianAt(s, at, width).Some?
    ensures BigEndianAt(s, at, width).Some? ==>
      BigEndianAt(s, at, width).value < Capacity(width) &&
      Stored(s, at, ToBE(BigEndianAt(s, at, width).value, width))
    ensures LittleEndianAt(s, at, width).Some? ==>
      LittleEndianAt(s, at, width).value < Capacity(width) &&
      Stored(s, at, ToLE(LittleEndianAt(s, at, width).value, width))
  {
    hide ByteAt, Slice, FromBE, FromLE;
    BigEndianBytes(s, at, width);
    LittleEndianBytes(s, at, width);
    if BytesAt(s, at, width).Some? {
      var bytes := BytesAt(s, at, width).value;
      BigEndianRange(bytes);
      LittleEndianRange(bytes);
      BigEndianStored(bytes);
      LittleEndianStored(bytes);
    }
  }

  // ----- reading

  datatype SourceError =
    | OutOfRange(offset: nat, size: nat)
    | ShortRead(offset: nat, wanted: nat, got: nat)
    | Malformed
    | Unsupported

  /** Bytes of the caller's buffer outside `[lo, hi)` keep their values. */
  ghost predicate Untouched(before: seq<byte>, after: seq<byte>, lo: nat, hi: nat) {
    && |before| == |after|
    && forall j :: 0 <= j < |after| && !(lo <= j < hi) ==> after[j] == before[j]
  }

  /** `buf[lo..lo+n)` holds bytes `[at, at+n)` of the stack. */
  ghost predicate Delivered(s: Source, at: nat, buf: seq<byte>, lo: nat, n: nat) {
    && lo + n <= |buf|
    && forall j :: lo <= j < lo + n ==> ByteAt(s, at + (j - lo)) == Some(buf[j])
  }

  /** The `Source` contract, for every stack. A call delivers a prefix of what was asked and clipped to
      the size, never an empty one unless nothing was left; it fails only when the offset is past the end
      or a byte of the clipped request does not resolve. A virtual disk never reads short. */
  method ReadAt(s: Source, offset: u64, buf: array<byte>, lo: nat, hi: nat) returns (r: Result<nat, SourceError>)
    requires s.Valid() && lo <= hi <= buf.Length
    modifies buf
    ensures Untouched(old(buf[..]), buf[..], lo, hi)
    ensures offset > s.Size() ==> r == Err(OutOfRange(offset, s.Size()))
    ensures r.Ok? ==> r.value <= Min(hi - lo, s.Size() - offset) && Delivered(s, offset, buf[..], lo, r.value)
    ensures r.Ok? && r.value == 0 ==> lo == hi || offset == s.Size()
    ensures r.Err? && offset <= s.Size() ==> !Readable(s, offset, Min(hi - lo, s.Size() - offset))
    ensures r.Ok? && s.Disk? ==> r.value == Min(hi - lo, s.Size() - offset)
    decreases s, 2
  {
    if offset > s.Size() {
      return Err(OutOfRange(offset, s.Size()));
    }
    var n := Min(hi - lo, s.Size() - offset);
    match s
    case Raw(_) =>
      r := ReadRaw(s, offset, buf, lo, n);
    case Window(inner, start, _) =>
      if n == 0 {
        return Ok(0);
      }
      r := ReadAt(inner, start + offset, buf, lo, lo + n);
      WindowBytes(s, offset, n);
    case Disk(_, _, _) =>
      r := ReadDisk(s, offset, buf, lo, n);
  }

  /** A positioned read of the backing file: any non-empty prefix of what was asked. */
  method ReadRaw(s: Source, offset: u64, buf: array<byte>, lo: nat, n: nat) returns (r: Result<nat, SourceError>)
    requires s.Raw? && lo + n <= buf.Length && offset + n <= |s.data|
    modifies buf
    ensures Untouched(old(buf[..]), buf[..], lo, lo + n)
    ensures r.Ok? && r.value <= n && (r.value == 0 <==> n == 0) && Delivered(s, offset, buf[..], lo, r.value)
    decreases s, 0
  {
    if n == 0 {
      return Ok(0);
    }
    var m :| 1 <= m <= n;
    var k := 0;
    while k < m
      invariant 0 <= k <= m
      invariant Untouched(old(buf[..]), buf[..], lo, lo + n)
      invariant Delivered(s, offset, buf[..], lo, k)
    {
      buf[lo + k] := s.data[offset + k];
      k := k + 1;
    }
    return Ok(m);
  }

  lemma WindowBytes(s: Source, at: nat, n: nat)
    requires s.Window? && at + n <= s.len
    ensures forall i :: at <= i < at + n ==> ByteAt(s, i) == ByteAt(s.inner, s.offset + i)
    ensures Readable(s, at, n) <==> Readable(s.inner, s.offset + at, n)
  {
    if Readable(s, at, n) {
      forall i | s.offset + at <= i < s.offset + at + n
        ensures ByteAt(s.inner, i).Some?
      {
        assert ByteAt(s, i - s.offset) == ByteAt(s.inner, i);
      }
    }
  }

  method ReadDisk(s: Source, offset: u64, buf: array<byte>, lo: nat, n: nat) returns (r: Result<nat, SourceError>)
    requires s.Disk? && s.Valid() && lo + n <= buf.Length && offset + n <= s.virtualSize
    modifies buf
    ensures Untouched(old(buf[..]), buf[..], lo, lo + n)
    ensures r.Ok? ==> r.value == n && Delivered(s, offset, buf[..], lo, n)
    ensures r.Err? ==> !Readable(s, offset, n)
    decreases s, 1
  {
    var unit := s.layout.Unit();
    var done := 0;
    while done < n
      invariant 0 <= done <= n
      invariant Untouched(old(buf[..]), buf[..], lo, lo + n)
      invariant Delivered(s, offset, buf[..], lo, done)
    {
      var at: u64 := offset + done;
      var within := at % unit;
      var take := Min(unit - within, n - done);
      DivisionShrinks(at, unit);
      UnitBytes(s, unit, at, take);
      ghost var before := buf[..];
      var read := ReadUnit(s, at / unit, within, at, buf, lo + done, take);
      if read.Err? {
        ReadableWithin(s, offset, n, at, take);
        return Err(read.error);
      }
      Appended(s, offset, before, buf[..], lo, done, take, lo + done + take);
      done := done + take;
    }
    return Ok(n);
  }

  /** One turn of the read loop: a request that stays inside cluster, grain or block `q`. */
  method ReadUnit(s: Source, q: u64, within: u64, ghost at: nat, buf: array<byte>, lo: nat, take: nat)
    returns (r: Result<(), SourceError>)
    requires s.Disk? && s.Valid() && lo + take <= buf.Length
    requires 0 < take && within + take <= s.layout.Unit() && q <= U64_LIMIT / 512
    requires UnitMeaning(s, Locate(s.inner, s.layout, q), within, at, take)
    modifies buf
    ensures Untouched(old(buf[..]), buf[..], lo, lo + take)
    ensures r.Ok? ==> Delivered(s, at, buf[..], lo, take)
    ensures r.Err? ==> !Readable(s, at, take)
    decreases s, 0
  {
    var found := LocateUnit(s.inner, s.layout, q);
    if found.Err? {
      assert ByteAt(s, at) == None;
      return Err(found.error);
    }
    match found.value {
      case Some(host) =>
        var from: u64 := if s.layout.Vhdx? then Saturate(host + within) else host + within;
        SaturatedBytes(s.inner, host + within, take);
        r := ReadExactAt(s.inner, from, buf, lo, lo + take);
        HostBytes(s, host, within, at, take);
        if r.Ok? {
          SliceDelivered(s, at, buf[..], lo, take);
        }
      case None =>
        Fill(buf, lo, lo + take);
        r := Ok(());
    }
  }

  lemma SliceDelivered(s: Source, at: nat, buf: seq<byte>, lo: nat, n: nat)
    requires lo + n <= |buf| && Readable(s, at, n)
    ensures Delivered(s, at, buf, lo, n) <==> buf[lo..lo + n] == Slice(s, at, n)
  {
    if buf[lo..lo + n] == Slice(s, at, n) {
      forall j | lo <= j < lo + n
        ensures ByteAt(s, at + (j - lo)) == Some(buf[j])
      {
        assert buf[lo..lo + n][j - lo] == buf[j];
      }
    }
  }

  method Fill(buf: array<byte>, lo: nat, hi: nat)
    requires lo <= hi <= buf.Length
    modifies buf
    ensures Untouched(old(buf[..]), buf[..], lo, hi)
    ensures forall j :: lo <= j < hi ==> buf[j] == 0
  {
    forall j | lo <= j < hi {
      buf[j] := 0;
    }
  }

  ghost function MeaningAt(inner: Source, location: Location, at: nat): Option<byte> {
    match location
    case Unresolvable => None
    case Hole => Some(0)
    case At(host) => ByteAt(inner, host + at)
  }

  /** The bytes of one unit are consecutive in the container, or all zero, or all unresolvable. */
  ghost predicate UnitMeaning(s: Source, location: Location, within: nat, at: nat, n: nat)
    requires s.Disk?
  {
    forall i :: at <= i < at + n ==> ByteAt(s, i) == MeaningAt(s.inner, location, within + (i - at))
  }

  lemma DiskByte(s: Source, i: nat, unit: nat, q: nat, within: nat)
    requires s.Disk? && i < s.virtualSize && unit == s.layout.Unit() > 0
    requires i / unit == q && i % unit == within
    ensures ByteAt(s, i) == MeaningAt(s.inner, Locate(s.inner, s.layout, q), within)
  {
  }

  lemma UnitBytes(s: Source, unit: nat, at: nat, n: nat)
    requires s.Disk? && unit == s.layout.Unit() > 0
    requires at + n <= s.virtualSize && at % unit + n <= unit
    ensures UnitMeaning(s, Locate(s.inner, s.layout, at / unit), at % unit, at, n)
  {
    var q, within := at / unit, at % unit;
    forall i | at <= i < at + n
      ensures ByteAt(s, i) == MeaningAt(s.inner, Locate(s.inner, s.layout, q), within + (i - at))
    {
      SameUnit(at, i - at, unit);
      DiskByte(s, i, unit, q, within + (i - at));
    }
  }

  /** Nothing lies at or beyond the size of a stack, so clamping a start to 2^64 - 1 changes no read. */
  lemma SaturatedBytes(s: Source, at: nat, n: nat)
    requires s.Valid() && n > 0
    ensures Saturate(at) != at ==> !Readable(s, at, n) && !Readable(s, Saturate(at), n)
  {
    if Saturate(at) != at {
      assert ByteAt(s, at) == None && ByteAt(s, Saturate(at)) == None;
    }
  }

  lemma ReadableWithin(s: Source, a: nat, n: nat, b: nat, m: nat)
    requires a <= b && b + m <= a + n
    ensures Readable(s, a, n) ==> Readable(s, b, m)
  {
  }

  /** Reading a table, a header field or a unit in full, through as many short reads as it takes. */
  method ReadExactAt(s: Source, start: u64, buf: array<byte>, lo: nat, hi: nat) returns (r: Result<(), SourceError>)
    requires s.Valid() && lo <= hi <= buf.Length
    modifies buf
    ensures Untouched(old(buf[..]), buf[..], lo, hi)
    ensures r.Ok? <==> Readable(s, start, hi - lo)
    ensures r.Ok? ==> buf[lo..hi] == Slice(s, start, hi - lo)
    ensures lo < hi && start > s.Size() ==> r == Err(OutOfRange(start, s.Size()))
    ensures lo < hi && start <= s.Size() < start + (hi - lo) && Readable(s, start, s.Size() - start) ==>
      r == Err(ShortRead(s.Size(), hi - lo, s.Size() - start))
    decreases s, 3
  {
    hide ByteAt;
    var offset := start;
    var from := lo;
    while from < hi
      invariant lo <= from <= hi && offset == start + (from - lo)
      invariant lo < from ==> offset <= s.Size()
      invariant Untouched(old(buf[..]), buf[..], lo, hi)
      invariant Delivered(s, start, buf[..], lo, from - lo)
    {
      ghost var before := buf[..];
      var n := ReadAt(s, offset, buf, from, hi);
      if n.Err? {
        CannotComplete(s, start, hi - lo, offset);
        return Err(n.error);
      }
      if n.value == 0 {
        CannotComplete(s, start, hi - lo, offset);
        return Err(ShortRead(offset, hi - lo, from - lo));
      }
      Appended(s, start, before, buf[..], lo, from - lo, n.value, hi);
      from, offset := from + n.value, offset + n.value;
    }
    DeliveredReadable(s, start, buf[..], lo, hi - lo);
    SliceDelivered(s, start, buf[..], lo, hi - lo);
    return Ok(());
  }

  lemma DeliveredReadable(s: Source, at: nat, buf: seq<byte>, lo: nat, n: nat)
    requires Delivered(s, at, buf, lo, n)
    ensures Readable(s, at, n)
  {
    forall i | at <= i < at + n
      ensures ByteAt(s, i).Some?
    {
      assert ByteAt(s, at + (lo + (i - at) - lo)) == Some(buf[lo + (i - at)]);
    }
  }

  /** A read that gets no further than `offset` rules out the whole request: some byte of it is past
      the end or does not resolve. */
  lemma CannotComplete(s: Source, start: nat, n: nat, offset: nat)
    requires start <= offset < start + n
    requires offset >= s.Size() || !Readable(s, offset, Min(start + n - offset, s.Size() - offset))
    ensures !Readable(s, start, n)
    ensures start <= s.Size() < start + n && Readable(s, start, s.Size() - start) ==> offset >= s.Size()
  {
    if offset >= s.Size() {
      assert ByteAt(s, offset) == None;
    } else {
      ReadableWithin(s, start, n, offset, Min(start + n - offset, s.Size() - offset));
      if start <= s.Size() {
        ReadableWithin(s, start, s.Size() - start, offset, Min(start + n - offset, s.Size() - offset));
      }
    }
  }

  method ReadBytes(s: Source, at: u64, n: nat) returns (r: Result<seq<byte>, SourceError>)
    requires s.Valid()
    ensures r.Ok? <==> BytesAt(s, at, n).Some?
    ensures r.Ok? ==> r.value == BytesAt(s, at, n).value
    decreases s, 4
  {
    var b := new byte[n];
    var read := ReadExactAt(s, at, b, 0, n);
    if read.Err? {
      return Err(read.error);
    }
    assert b[0..n] == b[..];
    return Ok(b[..]);
  }

  method ReadBE(s: Source, at: u64, width: nat) returns (r: Result<nat, SourceError>)
    requires s.Valid()
    ensures r.Ok? <==> BigEndianAt(s, at, width).Some?
    ensures r.Ok? ==> r.value == BigEndianAt(s, at, width).value < Capacity(width)
    decreases s, 4
  {
    var b := new byte[width];
    var read := ReadExactAt(s, at, b, 0, width);
    if read.Err? {
      return Err(read.error);
    }
    assert b[0..width] == b[..];
    BigEndianRange(b[..]);
    return Ok(FromBE(b[..]));
  }

  method ReadLE(s: Source, at: u64, width: nat) returns (r: Result<nat, SourceError>)
    requires s.Valid()
    ensures r.Ok? <==> LittleEndianAt(s, at, width).Some?
    ensures r.Ok? ==> r.value == LittleEndianAt(s, at, width).value < Capacity(width)
    decreases s, 4
  {
    var b := new byte[width];
    var read := ReadExactAt(s, at, b, 0, width);
    if read.Err? {
      return Err(read.error);
    }
    assert b[0..width] == b[..];
    LittleEndianRange(b[..]);
    return Ok(FromLE(b[..]));
  }

  /** The reader's `locate` agrees with the table lookup, however its address arithmetic saturates. */
  ghost predicate Agrees(r: Result<Option<u64>, SourceError>, location: Location) {
    match location
    case Unresolvable => r.Err?
    case Hole => r == Ok(None)
    case At(host) => r.Ok? && r.value.Some? && r.value.value == host
  }

  method LocateUnit(inner: Source, layout: Layout, unit: u64) returns (r: Result<Option<u64>, SourceError>)
    requires inner.Valid() && layout.Valid() && unit <= U64_LIMIT / 512
    ensures Agrees(r, Locate(inner, layout, unit))
    ensures r.Ok? && r.value.Some? && !layout.Vhdx? ==> r.value.value + layout.Unit() <= U64_LIMIT
    decreases inner, 7
  {
    match layout
    case Qcow2(l1Offset, l1Size, clusterSize) => r := FindCluster(inner, l1Offset, l1Size, clusterSize / 8, unit);
    case Vmdk(gdOffset, gtesPerGt, _) => r := FindGrain(inner, gdOffset, gtesPerGt, unit);
    case Vhdx(batOffset, _, chunkRatio) => r := FindBlock(inner, batOffset, chunkRatio, unit);
  }

  /** Both table entries can be read, and the second one is flagged as compressed. */
  ghost predicate CompressedAt(inner: Source, l1Offset: nat, l1Size: nat, l1Index: nat, l2Index: nat) {
    && l1Index < l1Size && BigEndianAt(inner, l1Offset + l1Index * 8, 8).Some?
    && var table := Qcow2Offset(BigEndianAt(inner, l1Offset + l1Index * 8, 8).value);
       && table != 0 && BigEndianAt(inner, table + l2Index * 8, 8).Some?
       && Qcow2Compressed(BigEndianAt(inner, table + l2Index * 8, 8).value)
  }

  method FindCluster(inner: Source, l1Offset: u64, l1Size: u32, l2Entries: nat, cluster: u64)
    returns (r: Result<Option<u64>, SourceError>)
    requires inner.Valid() && l2Entries > 0
    ensures Agrees(r, LocateCluster(inner, l1Offset, l1Size,
                                    Quotient(cluster, l2Entries), Remainder(cluster, l2Entries)))
    ensures CompressedAt(inner, l1Offset, l1Size, Quotient(cluster, l2Entries), Remainder(cluster, l2Entries)) ==>
              r == Err(Unsupported)
    ensures r.Ok? && r.value.Some? ==> r.value.value < 0x100_0000_0000_0000
    decreases inner, 6
  {
    hide ByteAt, Capacity, BigEndianAt;
    Capacities();
    var l1Index := cluster / l2Entries;
    if l1Index >= l1Size {
      return Ok(None);
    }
    var l1Entry := ReadBE(inner, Saturate(l1Offset + l1Index * 8), 8);
    SaturatedField(inner, l1Offset + l1Index * 8, 8);
    if l1Entry.Err? {
      return Err(l1Entry.error);
    }
    var l2Table := Qcow2Offset(l1Entry.value);
    if l2Table == 0 {
      return Ok(None);
    }
    var l2Index := cluster % l2Entries;
    var entry := ReadBE(inner, Saturate(l2Table + l2Index * 8), 8);
    SaturatedField(inner, l2Table + l2Index * 8, 8);
    if entry.Err? {
      return Err(entry.error);
    }
    if Qcow2Compressed(entry.value) {
      return Err(Unsupported);
    }
    var host := Qcow2Offset(entry.value);
    return Ok(if host != 0 then Some(host) else None);
  }

  method FindGrain(inner: Source, gdOffset: u64, gtesPerGt: u32, grain: u64)
    returns (r: Result<Option<u64>, SourceError>)
    requires inner.Valid() && gtesPerGt > 0
    ensures Agrees(r, LocateGrain(inner, gdOffset, Quotient(grain, gtesPerGt), Remainder(grain, gtesPerGt)))
    ensures r.Ok? && r.value.Some? ==> r.value.value < 0x200_0000_0000
    decreases inner, 6
  {
    Capacities();
    var gdIndex := grain / gtesPerGt;
    var gtSector := ReadEntryLE(inner, gdOffset * 512, gdIndex, 4);
    if gtSector.Err? {
      return Err(gtSector.error);
    }
    if gtSector.value == 0 {
      return Ok(None);
    }
    var gtIndex := grain % gtesPerGt;
    var grainSector := ReadEntryLE(inner, gtSector.value * 512, gtIndex, 4);
    if grainSector.Err? {
      return Err(grainSector.error);
    }
    return Ok(if grainSector.value != 0 then Some(grainSector.value * 512) else None);
  }

  method FindBlock(inner: Source, batOffset: u64, chunkRatio: u64, block: u64)
    returns (r: Result<Option<u64>, SourceError>)
    requires inner.Valid() && chunkRatio > 0
    ensures Agrees(r, LocateBlock(inner, batOffset, BatIndex(chunkRatio, block)))
    decreases inner, 6
  {
    Capacities();
    var entry := ReadEntryLE(inner, batOffset, BatIndex(chunkRatio, block), 8);
    if entry.Err? {
      return Err(entry.error);
    }
    if entry.value % 8 != 6 {
      return Ok(None);
    }
    return Ok(Some(VhdxOffset(entry.value)));
  }

  /** Entry `index` of a little-endian table, its address computed with saturating arithmetic. */
  method ReadEntryLE(s: Source, base: nat, index: nat, width: nat) returns (r: Result<nat, SourceError>)
    requires s.Valid() && width > 0
    ensures r.Ok? <==> LittleEndianAt(s, base + index * width, width).Some?
    ensures r.Ok? ==> r.value == LittleEndianAt(s, base + index * width, width).value < Capacity(width)
    decreases s, 5
  {
    SaturatedField(s, base + index * width, width);
    r := ReadLE(s, Saturate(Saturate(base) + Saturate(index * width)), width);
  }

  lemma SaturatedField(s: Source, at: nat, width: nat)
    requires s.Valid() && width > 0
    ensures BigEndianAt(s, Saturate(at), width) == BigEndianAt(s, at, width)
    ensures LittleEndianAt(s, Saturate(at), width) == LittleEndianAt(s, at, width)
  {
    SaturatedBytes(s, at, width);
  }

  lemma Appended(s: Source, at: nat, before: seq<byte>, after: seq<byte>, lo: nat, done: nat, take: nat, hi: nat)
    requires Delivered(s, at, before, lo, done)
    requires Untouched(before, after, lo + done, hi)
    requires Delivered(s, at + done, after, lo + done, take)
    ensures Delivered(s, at, after, lo, done + take)
  {
  }

  /** An allocated unit is readable exactly where its host bytes are, and reads as they do. */
  lemma HostBytes(s: Source, host: nat, within: nat, at: nat, n: nat)
    requires s.Disk? && UnitMeaning(s, At(host), within, at, n)
    ensures Readable(s, at, n) <==> Readable(s.inner, host + within, n)
    ensures Readable(s, at, n) ==> Slice(s, at, n) == Slice(s.inner, host + within, n)
  {
    if Readable(s, at, n) {
      forall i | host + within <= i < host + within + n
        ensures ByteAt(s.inner, i).Some?
      {
        assert ByteAt(s, at + (i - (host + within))) == ByteAt(s.inner, i);
      }
    }
  }
}
