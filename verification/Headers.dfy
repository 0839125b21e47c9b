/** Which containers each `open` accepts and which it calls unsupported, said on the bytes that lie in them. */
module Headers {
  import opened Bytes
  import opened Sources
  import opened Refusals
  import Qcow2Images
  import VmdkImages

  // ----- QCOW2

  ghost predicate Qcow2Start(s: Source) {
    Stored(s, 0, [0x51, 0x46, 0x49, 0xfb]) && Stored(s, 4, [0, 0, 0, 3])
  }

  /** "QFI" 0xfb, version 3, no backing file, no encryption, no snapshots, and the geometry. */
  ghost predicate Qcow2Spelled(s: Source, bits: nat, size: u64, l1Size: u32, l1Offset: u64) {
    && Qcow2Start(s)
    && Stored(s, 8, [0, 0, 0, 0, 0, 0, 0, 0]) && Stored(s, 32, [0, 0, 0, 0]) && Stored(s, 60, [0, 0, 0, 0])
    && 9 <= bits <= 21 && Stored(s, 20, [0, 0, 0, bits])
    && Stored(s, 24, ToBE(size, 8)) && Stored(s, 36, ToBE(l1Size, 4)) && Stored(s, 40, ToBE(l1Offset, 8))
  }

  lemma Qcow2Numbers(s: Source)
    ensures BigEndianAt(s, 0, 4) == Some(Qcow2Images.MAGIC) <==> Stored(s, 0, [0x51, 0x46, 0x49, 0xfb])
    ensures BigEndianAt(s, 4, 4) == Some(3) <==> Stored(s, 4, [0, 0, 0, 3])
    ensures BigEndianAt(s, 8, 8) == Some(0) <==> Stored(s, 8, [0, 0, 0, 0, 0, 0, 0, 0])
    ensures BigEndianAt(s, 32, 4) == Some(0) <==> Stored(s, 32, [0, 0, 0, 0])
    ensures BigEndianAt(s, 60, 4) == Some(0) <==> Stored(s, 60, [0, 0, 0, 0])
    ensures forall bits: nat :: bits < 256 ==> (BigEndianAt(s, 20, 4) == Some(bits) <==> Stored(s, 20, [0, 0, 0, bits]))
  {
    hide BigEndianAt, Stored;
    Capacities();
    FourBytes(Qcow2Images.MAGIC);
    FourBytes(3);
    FourBytes(0);
    EightZeros();
    StoredNumber(s, 0, Qcow2Images.MAGIC, 4);
    StoredNumber(s, 4, 3, 4);
    StoredNumber(s, 8, 0, 8);
    StoredNumber(s, 32, 0, 4);
    StoredNumber(s, 60, 0, 4);
    forall bits: nat | bits < 256
      ensures BigEndianAt(s, 20, 4) == Some(bits) <==> Stored(s, 20, [0, 0, 0, bits])
    {
      FourBytes(bits);
      StoredNumber(s, 20, bits, 4);
    }
  }

  lemma FourBytes(n: nat)
    requires n < U32_LIMIT
    ensures ToBE(n, 4) == [n / 0x100_0000, n / 0x1_0000 % 256, n / 256 % 256, n % 256]
  {
    var a, b, c := n / 256, n / 256 / 256, n / 256 / 256 / 256;
    assert ToBE(c, 1) == [c % 256];
    assert ToBE(b, 2) == ToBE(c, 1) + [b % 256];
    assert ToBE(a, 3) == ToBE(b, 2) + [a % 256];
    assert b == n / 0x1_0000 && c == n / 0x100_0000;
  }

  lemma EightZeros()
    ensures ToBE(0, 8) == [0, 0, 0, 0, 0, 0, 0, 0]
  {
    assert ToBE(0, 4) == [0, 0, 0, 0];
  }

  /** A container opens exactly when its header spells a supported image, and then with that geometry. */
  lemma Qcow2Accepted(s: Source)
    ensures Qcow2Images.Header(s).Ok? <==>
      exists bits: nat, size: u64, l1Size: u32, l1Offset: u64 :: Qcow2Spelled(s, bits, size, l1Size, l1Offset)
    ensures forall bits: nat, size: u64, l1Size: u32, l1Offset: u64 :: Qcow2Spelled(s, bits, size, l1Size, l1Offset) ==>
      512 <= Pow2(bits) <= 0x20_0000 &&
      Qcow2Images.Header(s) == Ok(Disk(s, Qcow2(l1Offset, l1Size, Pow2(bits)), size))
  {
    hide BigEndianAt, Stored, Pow2, Capacity, ToBE;
    Qcow2Numbers(s);
    Capacities();
    forall bits: nat, size: u64, l1Size: u32, l1Offset: u64 | Qcow2Spelled(s, bits, size, l1Size, l1Offset)
      ensures 512 <= Pow2(bits) <= 0x20_0000
      ensures Qcow2Images.Header(s) == Ok(Disk(s, Qcow2(l1Offset, l1Size, Pow2(bits)), size))
    {
      Qcow2Images.ClusterSizes(bits);
      StoredNumber(s, 24, size, 8);
      StoredNumber(s, 36, l1Size, 4);
      StoredNumber(s, 40, l1Offset, 8);
    }
    if Qcow2Images.Header(s).Ok? {
      SomeNumber(s, 24, 8);
      SomeNumber(s, 36, 4);
      SomeNumber(s, 40, 8);
      assert Qcow2Spelled(s, BigEndianAt(s, 20, 4).value, BigEndianAt(s, 24, 8).value, BigEndianAt(s, 36, 4).value,
                          BigEndianAt(s, 40, 8).value);
    }
  }

  /** An image is called unsupported exactly for a backing file, encryption or snapshots, met in this order. */
  lemma Qcow2Unsupported(s: Source)
    ensures Qcow2Images.Header(s) == Err(NotSupported) <==>
      && Qcow2Start(s)
      && (|| Differs(s, 8, [0, 0, 0, 0, 0, 0, 0, 0])
          || (Stored(s, 8, [0, 0, 0, 0, 0, 0, 0, 0]) &&
              (Differs(s, 32, [0, 0, 0, 0]) ||
               (Stored(s, 32, [0, 0, 0, 0]) && Differs(s, 60, [0, 0, 0, 0])))))
  {
    hide BigEndianAt, BytesAt, Pow2, Capacity, ToBE;
    Qcow2Numbers(s);
    SomeNumber(s, 8, 8);
    SomeNumber(s, 32, 4);
    SomeNumber(s, 60, 4);
  }

  // ----- VMDK

  /** Flag bit 16, in the four bytes of the flags. */
  lemma FlagBits(f: seq<byte>)
    requires |f| == 4
    ensures VmdkImages.Compressed(FromLE(f)) <==> f[2] % 2 == 1
  {
    Capacities();
    assert f == f[0..2] + ([f[2]] + [f[3]]);
    LittleEndianWeights(f[0..2], [f[2]] + [f[3]]);
    LittleEndianWeights([f[2]], [f[3]]);
    LittleEndianRange(f[0..2]);
    hide FromLE, Capacity;
    FlagParts(FromLE(f[0..2]), f[2], f[3]);
  }

  lemma FlagParts(low: nat, b: byte, c: byte)
    requires low < 0x1_0000
    ensures VmdkImages.Compressed(low + 0x1_0000 * (b + 256 * c)) <==> b % 2 == 1
  {
    assert (low + 0x1_0000 * (b + 256 * c)) / 0x1_0000 == b + 256 * c;
  }

  /** "KDMV" and readable flags. */
  ghost predicate VmdkStart(s: Source, flags: seq<byte>) {
    Stored(s, 0, Ascii("KDMV")) && |flags| == 4 && Stored(s, 8, flags)
  }

  /** No compression, a usable geometry in sectors, and readable descriptor fields. */
  ghost predicate VmdkSpelled(s: Source, flags: seq<byte>, capacity: u64, grain: u64, gtes: u32, directory: u64) {
    && VmdkStart(s, flags) && flags[2] % 2 == 0
    && Stored(s, 12, ToLE(capacity, 8)) && Stored(s, 20, ToLE(grain, 8)) && Stored(s, 44, ToLE(gtes, 4))
    && Stored(s, 56, ToLE(directory, 8))
    && BytesAt(s, 28, 8).Some? && BytesAt(s, 36, 8).Some?
    && grain > 0 && gtes > 0 && directory > 0
    && 512 * grain < U64_LIMIT && 512 * capacity < U64_LIMIT
  }

  lemma VmdkMagic(s: Source)
    ensures LittleEndianAt(s, 0, 4) == Some(VmdkImages.MAGIC) <==> Stored(s, 0, Ascii("KDMV"))
  {
    hide LittleEndianAt, Stored, ToLE, Ascii, ToBE;
    Capacities();
    StoredNumber(s, 0, VmdkImages.MAGIC, 4);
    MagicBytes();
  }

  lemma MagicBytes()
    ensures ToLE(VmdkImages.MAGIC, 4) == Ascii("KDMV")
  {
    assert ToLE(0x56, 1) == [0x56];
    assert ToLE(0x564d, 2) == [0x4d] + ToLE(0x56, 1);
    assert ToLE(0x564d44, 3) == [0x44] + ToLE(0x564d, 2);
  }

  lemma VmdkFlags(s: Source)
    ensures LittleEndianAt(s, 8, 4).Some? <==> BytesAt(s, 8, 4).Some?
    ensures forall flags: seq<byte> :: |flags| == 4 && Stored(s, 8, flags) ==>
      LittleEndianAt(s, 8, 4).Some? && (VmdkImages.Compressed(LittleEndianAt(s, 8, 4).value) <==> flags[2] % 2 == 1)
  {
    hide VmdkImages.Compressed, ByteAt, FromLE, Slice;
    LittleEndianBytes(s, 8, 4);
    if BytesAt(s, 8, 4).Some? {
      FlagBits(BytesAt(s, 8, 4).value);
    }
  }

  lemma VmdkOpens(s: Source, flags: seq<byte>, capacity: u64, grain: u64, gtes: u32, directory: u64)
    requires VmdkSpelled(s, flags, capacity, grain, gtes, directory)
    ensures VmdkImages.Header(s) == Ok(Disk(s, Vmdk(directory, gtes, 512 * grain), 512 * capacity))
  {
    hide LittleEndianAt, Capacity, ToLE, VmdkImages.Compressed, BytesAt, Ascii, Stored;
    VmdkFields(s, capacity, grain, gtes, directory);
    VmdkMagic(s);
    VmdkFlags(s);
    SomeNumber(s, 28, 8);
    SomeNumber(s, 36, 8);
  }

  lemma VmdkFields(s: Source, capacity: u64, grain: u64, gtes: u32, directory: u64)
    ensures LittleEndianAt(s, 12, 8) == Some(capacity) <==> Stored(s, 12, ToLE(capacity, 8))
    ensures LittleEndianAt(s, 20, 8) == Some(grain) <==> Stored(s, 20, ToLE(grain, 8))
    ensures LittleEndianAt(s, 44, 4) == Some(gtes) <==> Stored(s, 44, ToLE(gtes, 4))
    ensures LittleEndianAt(s, 56, 8) == Some(directory) <==> Stored(s, 56, ToLE(directory, 8))
  {
    hide LittleEndianAt, ToLE, Stored;
    Capacities();
    StoredNumber(s, 12, capacity, 8);
    StoredNumber(s, 20, grain, 8);
    StoredNumber(s, 44, gtes, 4);
    StoredNumber(s, 56, directory, 8);
  }

  lemma VmdkSpells(s: Source)
    requires VmdkImages.Header(s).Ok?
    ensures exists flags: seq<byte>, capacity: u64, grain: u64, gtes: u32, directory: u64 ::
              VmdkSpelled(s, flags, capacity, grain, gtes, directory)
  {
    hide LittleEndianAt, Capacity, ToLE, VmdkImages.Compressed, BytesAt, Ascii, Stored;
    Capacities();
    VmdkMagic(s);
    VmdkFlags(s);
    SomeNumber(s, 28, 8);
    SomeNumber(s, 36, 8);
    SomeNumber(s, 12, 8);
    SomeNumber(s, 20, 8);
    SomeNumber(s, 44, 4);
    SomeNumber(s, 56, 8);
    FlagsRead(s);
    assert VmdkSpelled(s, BytesAt(s, 8, 4).value, LittleEndianAt(s, 12, 8).value, LittleEndianAt(s, 20, 8).value,
                       LittleEndianAt(s, 44, 4).value, LittleEndianAt(s, 56, 8).value);
  }

  /** A container's header opens exactly when it spells a supported image, and then with that geometry. */
  lemma VmdkAccepted(s: Source)
    ensures VmdkImages.Header(s).Ok? <==>
      exists flags: seq<byte>, capacity: u64, grain: u64, gtes: u32, directory: u64 ::
        VmdkSpelled(s, flags, capacity, grain, gtes, directory)
    ensures forall flags: seq<byte>, capacity: u64, grain: u64, gtes: u32, directory: u64 ::
      VmdkSpelled(s, flags, capacity, grain, gtes, directory) ==>
        VmdkImages.Header(s) == Ok(Disk(s, Vmdk(directory, gtes, 512 * grain), 512 * capacity))
  {
    hide VmdkImages.Header;
    forall flags: seq<byte>, capacity: u64, grain: u64, gtes: u32, directory: u64
      | VmdkSpelled(s, flags, capacity, grain, gtes, directory)
      ensures VmdkImages.Header(s) == Ok(Disk(s, Vmdk(directory, gtes, 512 * grain), 512 * capacity))
    {
      VmdkOpens(s, flags, capacity, grain, gtes, directory);
    }
    if VmdkImages.Header(s).Ok? {
      VmdkSpells(s);
    }
  }

  lemma FlagsRead(s: Source)
    ensures BytesAt(s, 8, 4).Some? ==> |BytesAt(s, 8, 4).value| == 4 && Stored(s, 8, BytesAt(s, 8, 4).value)
  {
    hide ByteAt;
  }

  /** An image's header is called unsupported exactly for the compression flag. */
  lemma VmdkUnsupported(s: Source)
    ensures VmdkImages.Header(s) == Err(NotSupported) <==>
      exists flags: seq<byte> :: VmdkStart(s, flags) && flags[2] % 2 == 1
  {
    hide LittleEndianAt, Capacity, ToLE, VmdkImages.Compressed, BytesAt;
    VmdkMagic(s);
    VmdkFlags(s);
    FlagsRead(s);
    if VmdkImages.Header(s) == Err(NotSupported) {
      assert VmdkStart(s, BytesAt(s, 8, 4).value);
    }
  }
}
