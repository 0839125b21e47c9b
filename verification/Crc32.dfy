/** CRC-32 as section 8 of RFC 1952 defines it, bit by bit over a 32-bit register, and what it detects. */
module Crc32 {
  import opened Bytes

  function Xor(x: bv32, y: bv32): bv32 {
    x ^ y
  }

  /** One bit through the register, reflected polynomial 0xEDB88320. */
  function Shift(x: bv32): bv32 {
    if x & 1 == 1 then (x >> 1) ^ 0xEDB88320 else x >> 1
  }

  function Shift8(x: bv32): bv32 {
    Shift(Shift(Shift(Shift(Shift(Shift(Shift(Shift(x))))))))
  }

  function Weigh(b0: bool, b1: bool, b2: bool, b3: bool, b4: bool, b5: bool, b6: bool, b7: bool): byte {
    (if b0 then 1 else 0) + (if b1 then 2 else 0) + (if b2 then 4 else 0) + (if b3 then 8 else 0)
    + (if b4 then 16 else 0) + (if b5 then 32 else 0) + (if b6 then 64 else 0) + (if b7 then 128 else 0)
  }

  /** The `k` low bits of a number, as a word. */
  function Gather(n: nat, k: nat): bv32 {
    if k == 0 then 0 else Append(Gather(n / 2, k - 1), n % 2 == 1)
  }

  function Append(x: bv32, bit: bool): bv32 {
    (x << 1) | (if bit then 1 else 0)
  }

  /** A byte as the register takes it in. */
  function Bits(b: byte): bv32 {
    Gather(b, 8)
  }

  function Step(state: bv32, b: byte): bv32 {
    Shift8(Xor(state, Bits(b)))
  }

  /** The hasher's `update`. */
  function Update(state: bv32, s: seq<byte>): bv32 {
    if s == [] then state else Step(Update(state, s[..|s| - 1]), s[|s| - 1])
  }

  const INIT: bv32 := 0xFFFF_FFFF

  /** The word moved down by `k` bytes. */
  function Part(x: bv32, k: nat): bv32 {
    if k == 0 then x else if k == 1 then x >> 8 else if k == 2 then x >> 16 else x >> 24
  }

  /** Byte `k` of a word. */
  function Octet(x: bv32, k: nat): byte
    requires k < 4
  {
    LowOctet(if k == 0 then x else if k == 1 then x >> 8 else if k == 2 then x >> 16 else x >> 24)
  }

  function LowOctet(x: bv32): byte {
    Weigh(x & 1 != 0, x & 2 != 0, x & 4 != 0, x & 8 != 0, x & 16 != 0, x & 32 != 0, x & 64 != 0, x & 128 != 0)
  }

  /** The hasher's `finalize`, as the four bytes a little-endian field stores. */
  function Stored(state: bv32): (s: seq<byte>)
    ensures |s| == 4
  {
    var x := Xor(state, 0xFFFF_FFFF);
    [Octet(x, 0), Octet(x, 1), Octet(x, 2), Octet(x, 3)]
  }

  function Finalize(state: bv32): u32 {
    Widths(Stored(state));
    FromLE(Stored(state))
  }

  /** The one-shot hash. */
  function Crc(s: seq<byte>): u32 {
    Finalize(Update(INIT, s))
  }

  // ----- the register, word by word

  lemma XorParts(x: bv32, y: bv32)
    ensures (x ^ y) & 1 == (x & 1) ^ (y & 1)
    ensures (x ^ y) >> 1 == (x >> 1) ^ (y >> 1)
    ensures x & 1 == 0 || x & 1 == 1
    ensures y & 1 == 0 || y & 1 == 1
  {
  }

  lemma XorLeft(a: bv32, b: bv32, c: bv32)
    ensures (a ^ b) ^ c == (a ^ c) ^ b
  {
  }

  lemma XorRight(a: bv32, b: bv32, c: bv32)
    ensures (a ^ b) ^ c == a ^ (b ^ c)
  {
  }

  lemma XorBoth(a: bv32, b: bv32, c: bv32)
    ensures a ^ b == (a ^ c) ^ (b ^ c)
  {
  }

  lemma XorCancel(a: bv32, b: bv32, c: bv32)
    requires Xor(a, c) == Xor(b, c)
    ensures a == b
  {
  }

  lemma XorZero(x: bv32, y: bv32)
    ensures Xor(x, y) == 0 <==> x == y
  {
    hide Xor;
    XorTwice(x, y);
    XorOwn(y);
  }

  lemma XorOwn(y: bv32)
    ensures Xor(0, y) == y && Xor(y, y) == 0
  {
  }

  lemma XorMove(x: bv32, y: bv32, p: bv32, q: bv32)
    ensures Xor(x, y) == Xor(Xor(Xor(x, p), Xor(y, q)), Xor(p, q))
  {
    hide Xor;
    XorSwap(x, y, p, q);
    XorTwice(Xor(x, y), Xor(p, q));
  }

  lemma XorSwap(x: bv32, y: bv32, p: bv32, q: bv32)
    ensures Xor(Xor(x, p), Xor(y, q)) == Xor(Xor(x, y), Xor(p, q))
  {
    hide Xor;
    XorAssoc(x, p, Xor(y, q));
    XorAssoc(p, y, q);
    XorComm(p, y);
    XorAssoc(y, p, q);
    XorAssoc(x, y, Xor(p, q));
  }

  lemma XorAssoc(x: bv32, y: bv32, z: bv32)
    ensures Xor(Xor(x, y), z) == Xor(x, Xor(y, z))
  {
  }

  lemma XorComm(x: bv32, y: bv32)
    ensures Xor(x, y) == Xor(y, x)
  {
  }

  lemma XorTwice(x: bv32, y: bv32)
    ensures Xor(Xor(x, y), y) == x
  {
  }

  lemma ShiftLinear(x: bv32, y: bv32)
    ensures Shift(Xor(x, y)) == Xor(Shift(x), Shift(y))
  {
    XorParts(x, y);
    XorLeft(x >> 1, y >> 1, 0xEDB88320);
    XorRight(x >> 1, y >> 1, 0xEDB88320);
    XorBoth(x >> 1, y >> 1, 0xEDB88320);
  }

  lemma ShiftInjective(x: bv32, y: bv32)
    requires Shift(x) == Shift(y)
    ensures x == y
  {
  }

  lemma Shift8Linear(x: bv32, y: bv32)
    ensures Shift8(Xor(x, y)) == Xor(Shift8(x), Shift8(y))
  {
    hide Shift, Xor;
    var x1, y1 := Shift(x), Shift(y);
    var x2, y2 := Shift(x1), Shift(y1);
    var x3, y3 := Shift(x2), Shift(y2);
    var x4, y4 := Shift(x3), Shift(y3);
    var x5, y5 := Shift(x4), Shift(y4);
    var x6, y6 := Shift(x5), Shift(y5);
    var x7, y7 := Shift(x6), Shift(y6);
    ShiftLinear(x, y); ShiftLinear(x1, y1); ShiftLinear(x2, y2); ShiftLinear(x3, y3);
    ShiftLinear(x4, y4); ShiftLinear(x5, y5); ShiftLinear(x6, y6); ShiftLinear(x7, y7);
  }

  lemma Shift8Injective(x: bv32, y: bv32)
    requires Shift8(x) == Shift8(y)
    ensures x == y
  {
    hide Shift;
    var x1, y1 := Shift(x), Shift(y);
    var x2, y2 := Shift(x1), Shift(y1);
    var x3, y3 := Shift(x2), Shift(y2);
    var x4, y4 := Shift(x3), Shift(y3);
    var x5, y5 := Shift(x4), Shift(y4);
    var x6, y6 := Shift(x5), Shift(y5);
    var x7, y7 := Shift(x6), Shift(y6);
    ShiftInjective(x7, y7); ShiftInjective(x6, y6); ShiftInjective(x5, y5); ShiftInjective(x4, y4);
    ShiftInjective(x3, y3); ShiftInjective(x2, y2); ShiftInjective(x1, y1); ShiftInjective(x, y);
  }

  /** One byte up. */
  function Up(x: bv32): bv32 {
    x << 8
  }

  /** The word lies in its low `n` bytes. */
  predicate Low(d: bv32, n: nat) {
    if n == 0 then d == 0
    else if n == 1 then d <= 0xff
    else if n == 2 then d <= 0xffff
    else if n == 3 then TopClear(d)
    else true
  }

  predicate TopClear(d: bv32) {
    d <= 0xff_ffff
  }

  lemma LowStep(d: bv32, e: bv32, n: nat)
    requires n <= 3 && Low(d, n) && Low(e, 1)
    ensures Low(Xor(Up(d), e), n + 1) && TopClear(d)
    ensures Xor(Up(d), e) == 0 ==> d == 0 && e == 0
  {
  }

  /** Eight shifts bring the next byte down: nothing of it passes the feedback taps. */
  lemma ShiftUp(d: bv32)
    requires TopClear(d)
    ensures Shift8(Up(d)) == d
  {
  }

  lemma BitsXor(a: byte, b: byte)
    ensures Low(Xor(Bits(a), Bits(b)), 1)
    ensures Xor(Bits(a), Bits(b)) == 0 ==> a == b
  {
    hide Xor, Gather, Low;
    GatherBound(a, 8);
    GatherBound(b, 8);
    SmallXor(Bits(a), Bits(b));
    XorZero(Bits(a), Bits(b));
    if Bits(a) == Bits(b) {
      assert Pow2(8) == 256;
      GatherInjective(a, b, 8);
    }
  }

  lemma SmallXor(x: bv32, y: bv32)
    requires x <= 0xff && y <= 0xff
    ensures Low(Xor(x, y), 1)
  {
  }

  /** `k` one bits. */
  function Ones(k: nat): bv32 {
    if k == 0 then 0 else Append(Ones(k - 1), true)
  }

  lemma {:induction false} GatherBound(a: nat, k: nat)
    requires k <= 8
    ensures Gather(a, k) <= Ones(k) <= 0xff
  {
    OnesSmall(k);
    if k > 0 {
      hide Append;
      GatherBound(a / 2, k - 1);
      AppendBound(Gather(a / 2, k - 1), Ones(k - 1), a % 2 == 1);
    }
  }

  lemma {:induction false} GatherInjective(a: nat, b: nat, k: nat)
    requires k <= 8 && a < Pow2(k) && b < Pow2(k) && Gather(a, k) == Gather(b, k)
    ensures a == b
  {
    hide Append;
    if k > 0 {
      GatherBound(a / 2, k - 1);
      GatherBound(b / 2, k - 1);
      AppendInjective(Gather(a / 2, k - 1), a % 2 == 1, Gather(b / 2, k - 1), b % 2 == 1);
      GatherInjective(a / 2, b / 2, k - 1);
    }
  }

  lemma OnesSmall(k: nat)
    requires k <= 8
    ensures Ones(k) <= 0xff
  {
    assert Ones(0) == 0 && Ones(1) == 1 && Ones(2) == 3 && Ones(3) == 7 && Ones(4) == 15;
    assert Ones(5) == 31 && Ones(6) == 63 && Ones(7) == 127 && Ones(8) == 255;
  }

  lemma AppendBound(x: bv32, m: bv32, bit: bool)
    requires x <= m <= 0xff
    ensures Append(x, bit) <= Append(m, true)
  {
  }

  lemma AppendInjective(x: bv32, p: bool, y: bv32, q: bool)
    requires x <= 0xff && y <= 0xff && Append(x, p) == Append(y, q)
    ensures x == y && p == q
  {
  }

  /** Different registers store different values, so comparing stored checksums compares registers. */
  lemma StoredInjective(x: bv32, y: bv32)
    requires Finalize(x) == Finalize(y)
    ensures x == y
  {
    hide Octet, Xor;
    LittleEndianInjective(Stored(x), Stored(y));
    var u, v := Xor(x, 0xFFFF_FFFF), Xor(y, 0xFFFF_FFFF);
    assert Octet(u, 0) == Stored(x)[0] && Octet(v, 0) == Stored(y)[0];
    assert Octet(u, 1) == Stored(x)[1] && Octet(v, 1) == Stored(y)[1];
    assert Octet(u, 2) == Stored(x)[2] && Octet(v, 2) == Stored(y)[2];
    assert Octet(u, 3) == Stored(x)[3] && Octet(v, 3) == Stored(y)[3];
    OctetsInjective(u, v);
    XorCancel(x, y, 0xFFFF_FFFF);
  }

  lemma OctetsInjective(x: bv32, y: bv32)
    requires Octet(x, 0) == Octet(y, 0) && Octet(x, 1) == Octet(y, 1)
    requires Octet(x, 2) == Octet(y, 2) && Octet(x, 3) == Octet(y, 3)
    ensures x == y
  {
    hide Octet;
    OctetInjective(x, y, 0);
    OctetInjective(x, y, 1);
    OctetInjective(x, y, 2);
    OctetInjective(x, y, 3);
    WordParts(x, y);
  }

  lemma OctetInjective(x: bv32, y: bv32, k: nat)
    requires k < 4 && Octet(x, k) == Octet(y, k)
    ensures k == 0 ==> x & 0xff == y & 0xff
    ensures k == 1 ==> (x >> 8) & 0xff == (y >> 8) & 0xff
    ensures k == 2 ==> (x >> 16) & 0xff == (y >> 16) & 0xff
    ensures k == 3 ==> (x >> 24) & 0xff == (y >> 24) & 0xff
  {
    hide LowOctet;
    if k == 0 {
      LowOctetInjective(x, y);
    } else if k == 1 {
      LowOctetInjective(x >> 8, y >> 8);
    } else if k == 2 {
      LowOctetInjective(x >> 16, y >> 16);
    } else {
      LowOctetInjective(x >> 24, y >> 24);
    }
  }

  lemma LowOctetInjective(x: bv32, y: bv32)
    requires LowOctet(x) == LowOctet(y)
    ensures x & 0xff == y & 0xff
  {
  }

  lemma WordParts(x: bv32, y: bv32)
    requires x & 0xff == y & 0xff && (x >> 8) & 0xff == (y >> 8) & 0xff
    requires (x >> 16) & 0xff == (y >> 16) & 0xff && (x >> 24) & 0xff == (y >> 24) & 0xff
    ensures x == y
  {
  }

  // ----- whole inputs

  /** Hashing in pieces is hashing the concatenation. */
  lemma {:induction false} UpdateConcat(state: bv32, a: seq<byte>, b: seq<byte>)
    ensures Update(state, a + b) == Update(Update(state, a), b)
  {
    hide Step;
    if b == [] {
      assert a + b == a;
    } else {
      UpdateConcat(state, a, b[..|b| - 1]);
      assert (a + b)[..|a + b| - 1] == a + b[..|b| - 1];
    }
  }

  lemma UpdateFirst(x: bv32, s: seq<byte>)
    requires s != []
    ensures Update(x, s) == Update(Step(x, s[0]), s[1..])
  {
    hide Step;
    assert s == [s[0]] + s[1..];
    UpdateConcat(x, [s[0]], s[1..]);
    assert Update(x, [s[0]]) == Step(Update(x, []), s[0]);
  }

  lemma StepInjective(x: bv32, y: bv32, b: byte)
    requires Step(x, b) == Step(y, b)
    ensures x == y
  {
    hide Shift8, Bits, Xor;
    Shift8Injective(Xor(x, Bits(b)), Xor(y, Bits(b)));
    XorCancel(x, y, Bits(b));
  }

  /** The register after an input determines the register before it. */
  lemma {:induction false} UpdateInjective(x: bv32, y: bv32, s: seq<byte>)
    requires Update(x, s) == Update(y, s)
    ensures x == y
  {
    hide Step;
    if s != [] {
      StepInjective(Update(x, s[..|s| - 1]), Update(y, s[..|s| - 1]), s[|s| - 1]);
      UpdateInjective(x, y, s[..|s| - 1]);
    }
  }

  // ----- bursts

  /** Running two registers one byte backwards: while their difference keeps its top byte clear, the
      difference before is the difference after, one byte up, combined with that of the two inputs. */
  lemma StepBack(x: bv32, y: bv32, a: byte, b: byte)
    requires TopClear(Xor(Step(x, a), Step(y, b)))
    ensures Xor(x, y) == Xor(Up(Xor(Step(x, a), Step(y, b))), Xor(Bits(a), Bits(b)))
  {
    hide Shift8, Bits, Xor, TopClear, Up;
    var d := Xor(Step(x, a), Step(y, b));
    var p, q := Xor(x, Bits(a)), Xor(y, Bits(b));
    Shift8Linear(p, q);
    ShiftUp(d);
    Shift8Injective(Xor(p, q), Up(d));
    XorMove(x, y, Bits(a), Bits(b));
  }

  /** Two inputs of at most four bytes that bring two registers to the same value: the registers differ
      in that many low bytes at most, and equal registers mean equal inputs. */
  lemma {:induction false} BurstBack(x: bv32, y: bv32, v: seq<byte>, w: seq<byte>)
    requires |v| == |w| <= 4 && Update(x, v) == Update(y, w)
    ensures Low(Xor(x, y), |v|)
    ensures x == y ==> v == w
    decreases |v|
  {
    hide Step, Bits, Xor, Up, TopClear;
    XorZero(x, y);
    if v != [] {
      hide Low;
      UpdateFirst(x, v);
      UpdateFirst(y, w);
      var x', y' := Step(x, v[0]), Step(y, w[0]);
      BurstBack(x', y', v[1..], w[1..]);
      BitsXor(v[0], w[0]);
      LowStep(Xor(x', y'), Xor(Bits(v[0]), Bits(w[0])), |v| - 1);
      StepBack(x, y, v[0], w[0]);
      XorZero(x', y');
      assert v == [v[0]] + v[1..] && w == [w[0]] + w[1..];
    }
  }

  /** CRC-32 detects every change confined to four consecutive bytes. */
  lemma BurstDetected(pre: seq<byte>, v: seq<byte>, w: seq<byte>, post: seq<byte>)
    requires |v| == |w| <= 4 && v != w
    ensures Crc(pre + v + post) != Crc(pre + w + post)
  {
    hide Update, Finalize;
    var s := Update(INIT, pre);
    UpdateConcat(INIT, pre, v);
    UpdateConcat(INIT, pre, w);
    UpdateConcat(INIT, pre + v, post);
    UpdateConcat(INIT, pre + w, post);
    if Crc(pre + v + post) == Crc(pre + w + post) {
      StoredInjective(Update(Update(s, v), post), Update(Update(s, w), post));
      UpdateInjective(Update(s, v), Update(s, w), post);
      BurstBack(s, s, v, w);
    }
  }

  lemma BurstChanges(a: seq<byte>, b: seq<byte>, p: nat, n: nat)
    requires AgreeOutside(a, b, p, n) && n <= 4 && a != b
    ensures Crc(a) != Crc(b)
  {
    hide Crc;
    var q, m := Min(p, |a|), Min(p + n, |a|) - Min(p, |a|);
    assert a == a[..q] + a[q..q + m] + a[q + m..];
    assert b == a[..q] + b[q..q + m] + a[q + m..];
    assert a[q..q + m] != b[q..q + m];
    BurstDetected(a[..q], a[q..q + m], b[q..q + m], a[q + m..]);
  }

  // ----- the function itself

  /** What the table of section 8 of RFC 1952 holds for a byte: that byte after eight single-bit steps. */
  function TableEntry(low: bv32): bv32 {
    Shift8(low)
  }

  function LowByte(x: bv32): bv32 {
    x & 0xff
  }

  function Down(x: bv32): bv32 {
    x >> 8
  }

  lemma WordSplits(x: bv32)
    ensures x == Xor(LowByte(x), Up(Down(x))) && TopClear(Down(x))
  {
  }

  lemma TableStarts()
    ensures TableEntry(1) == 0x7707_3096 && TableEntry(128) == 0xEDB8_8320
  {
  }

  /** The table-driven step: look up the low byte, combine with the rest moved down. */
  lemma TableStep(state: bv32, b: byte)
    ensures var x := Xor(state, Bits(b));
      Step(state, b) == Xor(TableEntry(LowByte(x)), Down(x))
    ensures TableEntry(1) == 0x7707_3096 && TableEntry(128) == 0xEDB8_8320
  {
    TableStarts();
    hide Shift8, Bits, Xor, TopClear, Up, Down, LowByte;
    var x := Xor(state, Bits(b));
    WordSplits(x);
    Shift8Linear(LowByte(x), Up(Down(x)));
    ShiftUp(Down(x));
  }

  /** A few bytes as the word they make in the register, the first lowest. */
  function WordOf(s: seq<byte>): bv32 {
    if s == [] then 0 else Xor(Up(WordOf(s[1..])), Bits(s[0]))
  }

  function ShiftBytes(x: bv32, k: nat): bv32
    decreases k
  {
    if k == 0 then x else ShiftBytes(Shift8(x), k - 1)
  }

  lemma BitsLow(b: byte)
    ensures Low(Bits(b), 1)
  {
    hide Gather;
    GatherBound(b, 8);
  }

  lemma {:induction false} WordLow(s: seq<byte>)
    requires |s| <= 4
    ensures Low(WordOf(s), |s|)
  {
    hide Low, Xor, Up, Bits;
    if s == [] {
      assert Low(0, 0) by { NothingLow(); }
    } else {
      WordLow(s[1..]);
      BitsLow(s[0]);
      LowStep(WordOf(s[1..]), Bits(s[0]), |s| - 1);
    }
  }

  lemma NothingLow()
    ensures Low(0, 0)
  {
  }

  lemma LowTopClear(d: bv32, n: nat)
    requires Low(d, n) && n <= 3
    ensures TopClear(d)
  {
  }

  /** Feeding up to four bytes is combining them with the register as one word, and shifting it through. */
  lemma {:induction false} FeedsWord(x: bv32, s: seq<byte>)
    requires |s| <= 4
    ensures Update(x, s) == ShiftBytes(Xor(x, WordOf(s)), |s|)
    decreases |s|
  {
    hide Step, Bits, Xor, Up, Shift8, TopClear, Low;
    if s == [] {
      XorNothing(x);
    } else {
      var first, rest := Bits(s[0]), WordOf(s[1..]);
      UpdateFirst(x, s);
      FeedsWord(Step(x, s[0]), s[1..]);
      WordLow(s[1..]);
      LowTopClear(rest, |s| - 1);
      StepWord(x, s[0], rest);
    }
  }

  lemma XorNothing(x: bv32)
    ensures Xor(x, 0) == x
  {
  }

  lemma StepWord(x: bv32, b: byte, rest: bv32)
    requires TopClear(rest)
    ensures Shift8(Xor(x, Xor(Up(rest), Bits(b)))) == Xor(Step(x, b), rest)
  {
    hide Bits, Xor, Up, Shift8, TopClear;
    XorComm(Up(rest), Bits(b));
    XorAssoc(x, Bits(b), Up(rest));
    Shift8Linear(Xor(x, Bits(b)), Up(rest));
    ShiftUp(rest);
  }

  lemma WeighHalves(b0: bool, b1: bool, b2: bool, b3: bool, b4: bool, b5: bool, b6: bool, b7: bool)
    ensures Weigh(b0, b1, b2, b3, b4, b5, b6, b7) / 2 == Weigh(b1, b2, b3, b4, b5, b6, b7, false)
    ensures Weigh(b0, b1, b2, b3, b4, b5, b6, b7) % 2 == 1 <==> b0
  {
  }

  function Assemble(b0: bool, b1: bool, b2: bool, b3: bool, b4: bool, b5: bool, b6: bool, b7: bool): bv32 {
    Append(Append(Append(Append(Append(Append(Append(Append(0, b7), b6), b5), b4), b3), b2), b1), b0)
  }

  lemma GatherWeighed(b0: bool, b1: bool, b2: bool, b3: bool, b4: bool, b5: bool, b6: bool, b7: bool)
    ensures Bits(Weigh(b0, b1, b2, b3, b4, b5, b6, b7)) == Assemble(b0, b1, b2, b3, b4, b5, b6, b7)
  {
    hide Append, Weigh, Gather;
    GatherStep(b0, b1, b2, b3, b4, b5, b6, b7, 8);
    GatherStep(b1, b2, b3, b4, b5, b6, b7, false, 7);
    GatherStep(b2, b3, b4, b5, b6, b7, false, false, 6);
    GatherStep(b3, b4, b5, b6, b7, false, false, false, 5);
    GatherStep(b4, b5, b6, b7, false, false, false, false, 4);
    GatherStep(b5, b6, b7, false, false, false, false, false, 3);
    GatherStep(b6, b7, false, false, false, false, false, false, 2);
    GatherStep(b7, false, false, false, false, false, false, false, 1);
    assert Gather(Weigh(false, false, false, false, false, false, false, false), 0) == 0 by { GatherNothing(); }
  }

  lemma GatherNothing()
    ensures forall n: nat :: Gather(n, 0) == 0
  {
  }

  lemma GatherStep(b0: bool, b1: bool, b2: bool, b3: bool, b4: bool, b5: bool, b6: bool, b7: bool, k: nat)
    requires k > 0
    ensures Gather(Weigh(b0, b1, b2, b3, b4, b5, b6, b7), k) ==
            Append(Gather(Weigh(b1, b2, b3, b4, b5, b6, b7, false), k - 1), b0)
  {
    hide Append, Weigh;
    WeighHalves(b0, b1, b2, b3, b4, b5, b6, b7);
  }

  lemma AssembleByte(x: bv32)
    ensures Assemble(x & 1 != 0, x & 2 != 0, x & 4 != 0, x & 8 != 0, x & 16 != 0, x & 32 != 0, x & 64 != 0,
                     x & 128 != 0) == LowByte(x)
  {
  }

  lemma OctetBits(x: bv32)
    ensures Bits(LowOctet(x)) == LowByte(x)
  {
    hide Append, Assemble, Weigh, Gather, LowByte;
    AssembleByte(x);
    GatherWeighed(x & 1 != 0, x & 2 != 0, x & 4 != 0, x & 8 != 0, x & 16 != 0, x & 32 != 0, x & 64 != 0,
                  x & 128 != 0);
  }

  lemma WordOctets(x: bv32)
    ensures x == Xor(Up(Xor(Up(Xor(Up(Xor(Up(0), LowByte(Part(x, 3)))), LowByte(Part(x, 2)))), LowByte(Part(x, 1)))),
                     LowByte(Part(x, 0)))
  {
  }

  lemma OctetPart(x: bv32, k: nat)
    requires k < 4
    ensures Octet(x, k) == LowOctet(Part(x, k))
  {
    hide LowOctet;
  }

  lemma OctetBytes(x: bv32)
    ensures Bits(Octet(x, 0)) == LowByte(Part(x, 0)) && Bits(Octet(x, 1)) == LowByte(Part(x, 1))
    ensures Bits(Octet(x, 2)) == LowByte(Part(x, 2)) && Bits(Octet(x, 3)) == LowByte(Part(x, 3))
  {
    hide Bits, LowOctet, LowByte, Part, Octet;
    OctetPart(x, 0);
    OctetPart(x, 1);
    OctetPart(x, 2);
    OctetPart(x, 3);
    OctetBits(Part(x, 0));
    OctetBits(Part(x, 1));
    OctetBits(Part(x, 2));
    OctetBits(Part(x, 3));
  }

  /** The stored checksum, read back into a word, is the complement of the register. */
  lemma StoredWord(state: bv32)
    ensures WordOf(Stored(state)) == Xor(state, 0xFFFF_FFFF)
  {
    hide Bits, Xor, Up, Octet, LowByte, WordOf, Part;
    var x := Xor(state, 0xFFFF_FFFF);
    WordOfFour(Octet(x, 0), Octet(x, 1), Octet(x, 2), Octet(x, 3));
    OctetBytes(x);
    WordOctets(x);
  }

  lemma WordOfFour(a: byte, b: byte, c: byte, d: byte)
    ensures WordOf([a, b, c, d]) == Xor(Up(Xor(Up(Xor(Up(Xor(Up(0), Bits(d))), Bits(c))), Bits(b))), Bits(a))
  {
    hide Bits, Xor, Up;
    assert [a, b, c, d][1..] == [b, c, d] && [b, c, d][1..] == [c, d] && [c, d][1..] == [d] && [d][1..] == [];
    assert WordOf([d]) == Xor(Up(WordOf([])), Bits(d));
    assert WordOf([c, d]) == Xor(Up(WordOf([d])), Bits(c));
    assert WordOf([b, c, d]) == Xor(Up(WordOf([c, d])), Bits(b));
  }

  const RESIDUE: bv32 := 0xDEBB_20E3

  lemma OnesThrough()
    ensures ShiftBytes(0xFFFF_FFFF, 4) == RESIDUE
  {
    assert Shift8(0xFFFF_FFFF) == 0x2DFD_1072;
  }

  lemma XorSelf(x: bv32)
    ensures Xor(x, Xor(x, 0xFFFF_FFFF)) == 0xFFFF_FFFF
  {
  }

  /** The law that identifies this checksum: any input followed by its own checksum has the same checksum,
      the constant published for CRC-32; and nothing at all has checksum zero. */
  lemma Residue(s: seq<byte>)
    ensures Crc(s + ToLE(Crc(s), 4)) == 0x2144_DF1C
    ensures Crc([]) == 0
  {
    hide Update, Stored, Xor, ShiftBytes, WordOf;
    var state := Update(INIT, s);
    LittleEndianStored(Stored(state));
    UpdateConcat(INIT, s, Stored(state));
    FeedsWord(state, Stored(state));
    StoredWord(state);
    XorSelf(state);
    OnesThrough();
    Published();
  }

  lemma Published()
    ensures Finalize(RESIDUE) == 0x2144_DF1C && Update(INIT, []) == INIT && Finalize(INIT) == 0
  {
    hide Octet;
    ResidueOctets();
    InitOctets();
    assert Stored(RESIDUE) == [0x1C, 0xDF, 0x44, 0x21] && Stored(INIT) == [0, 0, 0, 0];
    hide Stored;
    FourDigits(0x1C, 0xDF, 0x44, 0x21);
    FourDigits(0, 0, 0, 0);
  }

  lemma ResidueOctets()
    ensures var x := Xor(RESIDUE, 0xFFFF_FFFF);
      Octet(x, 0) == 0x1C && Octet(x, 1) == 0xDF && Octet(x, 2) == 0x44 && Octet(x, 3) == 0x21
  {
    assert Xor(RESIDUE, 0xFFFF_FFFF) == 0x2144_DF1C;
  }

  lemma InitOctets()
    ensures var x := Xor(INIT, 0xFFFF_FFFF);
      Octet(x, 0) == 0 && Octet(x, 1) == 0 && Octet(x, 2) == 0 && Octet(x, 3) == 0
  {
    assert Xor(INIT, 0xFFFF_FFFF) == 0;
  }

  lemma FourDigits(a: byte, b: byte, c: byte, d: byte)
    ensures FromLE([a, b, c, d]) == a + 0x100 * b + 0x1_0000 * c + 0x100_0000 * d
  {
    assert [a, b, c, d][1..] == [b, c, d] && [b, c, d][1..] == [c, d] && [c, d][1..] == [d] && [d][1..] == [];
    assert FromLE([d]) == d;
    assert FromLE([c, d]) == c + 0x100 * FromLE([d]);
    assert FromLE([b, c, d]) == b + 0x100 * FromLE([c, d]);
  }
}
