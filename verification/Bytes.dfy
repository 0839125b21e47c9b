/** Bytes, machine-word ranges and the fixed-width integer encodings every on-disk structure uses. */
module Bytes {
  type byte = x: int | 0 <= x < 256

  const U32_LIMIT := 0x1_0000_0000
  const U64_LIMIT := 0x1_0000_0000_0000_0000

  type u32 = x: int | 0 <= x < 0x1_0000_0000
  type u64 = x: int | 0 <= x < 0x1_0000_0000_0000_0000

  datatype Option<+T> = None | Some(value: T)

  datatype Result<+T, +E> = Ok(value: T) | Err(error: E)

  function Min(a: int, b: int): int {
    if a <= b then a else b
  }

  function Max(a: int, b: int): int {
    if a <= b then b else a
  }

  /** `u64::saturating_add` and `u64::saturating_mul` on non-negative operands. */
  function Saturate(x: nat): u64 {
    if x < U64_LIMIT then x else U64_LIMIT - 1
  }

  /** `256^width`, the number of values a `width`-byte field can hold. */
  function Capacity(width: nat): nat {
    if width == 0 then 1 else 256 * Capacity(width - 1)
  }

  lemma Capacities()
    ensures Capacity(1) == 256 && Capacity(2) == 0x1_0000
    ensures Capacity(4) == U32_LIMIT
    ensures Capacity(8) == U64_LIMIT
  {
    assert Capacity(2) == 0x1_0000;
    assert Capacity(3) == 0x100_0000;
    assert Capacity(4) == 0x1_0000_0000;
    assert Capacity(5) == 0x100_0000_0000;
    assert Capacity(6) == 0x1_0000_0000_0000;
    assert Capacity(7) == 0x100_0000_0000_0000;
  }

  function FromLE(s: seq<byte>): nat {
    if s == [] then 0 else s[0] + 256 * FromLE(s[1..])
  }

  function FromBE(s: seq<byte>): nat {
    if s == [] then 0 else 256 * FromBE(s[..|s| - 1]) + s[|s| - 1]
  }

  function ToLE(n: nat, width: nat): (s: seq<byte>)
    ensures |s| == width
  {
    if width == 0 then [] else [n % 256] + ToLE(n / 256, width - 1)
  }

  function ToBE(n: nat, width: nat): (s: seq<byte>)
    ensures |s| == width
  {
    if width == 0 then [] else ToBE(n / 256, width - 1) + [n % 256]
  }

  lemma {:induction false} LittleEndianRoundTrip(n: nat, width: nat)
    requires n < Capacity(width)
    ensures FromLE(ToLE(n, width)) == n
  {
    if width > 0 {
      LittleEndianRoundTrip(n / 256, width - 1);
      assert ToLE(n, width)[1..] == ToLE(n / 256, width - 1);
    }
  }

  lemma {:induction false} BigEndianRoundTrip(n: nat, width: nat)
    requires n < Capacity(width)
    ensures FromBE(ToBE(n, width)) == n
  {
    if width > 0 {
      BigEndianRoundTrip(n / 256, width - 1);
      assert ToBE(n, width)[..width - 1] == ToBE(n / 256, width - 1);
    }
  }

  lemma {:induction false} LittleEndianRange(s: seq<byte>)
    ensures FromLE(s) < Capacity(|s|)
  {
    if s != [] {
      LittleEndianRange(s[1..]);
    }
  }

  lemma {:induction false} BigEndianRange(s: seq<byte>)
    ensures FromBE(s) < Capacity(|s|)
  {
    if s != [] {
      BigEndianRange(s[..|s| - 1]);
    }
  }

  lemma NoCapacity()
    ensures Capacity(0) == 1
  {
  }

  lemma CapacityTimes(width: nat, n: nat)
    requires width > 0
    ensures Capacity(width) * n == 256 * (Capacity(width - 1) * n)
    ensures n * Capacity(width) == 256 * (n * Capacity(width - 1))
  {
  }

  /** The first byte of a little-endian number weighs least. */
  lemma {:induction false} LittleEndianWeights(a: seq<byte>, b: seq<byte>)
    ensures FromLE(a + b) == FromLE(a) + Capacity(|a|) * FromLE(b)
    ensures forall x: byte :: FromLE([x]) == x
  {
    hide Capacity, FromLE;
    if a == [] {
      assert a + b == b;
      NoCapacity();
      LittleEndianFirst([]);
    } else {
      assert (a + b)[1..] == a[1..] + b;
      LittleEndianWeights(a[1..], b);
      LittleEndianFirst(a + b);
      LittleEndianFirst(a);
      CapacityTimes(|a|, FromLE(b));
    }
    OneByte();
  }

  lemma LittleEndianFirst(s: seq<byte>)
    ensures FromLE(s) == if s == [] then 0 else s[0] + 256 * FromLE(s[1..])
  {
  }

  /** The last byte of a big-endian number weighs least. */
  lemma {:induction false} BigEndianWeights(a: seq<byte>, b: seq<byte>)
    ensures FromBE(a + b) == FromBE(a) * Capacity(|b|) + FromBE(b)
    ensures forall x: byte :: FromBE([x]) == x
  {
    hide Capacity, FromBE;
    if b == [] {
      assert a + b == a;
      NoCapacity();
      BigEndianLast([]);
    } else {
      var n := |b| - 1;
      assert (a + b)[..|a| + n] == a + b[..n];
      BigEndianWeights(a, b[..n]);
      BigEndianLast(a + b);
      BigEndianLast(b);
      CapacityTimes(n + 1, FromBE(a));
    }
    OneByte();
  }

  lemma BigEndianLast(s: seq<byte>)
    ensures FromBE(s) == if s == [] then 0 else 256 * FromBE(s[..|s| - 1]) + s[|s| - 1]
  {
  }

  lemma OneByte()
    ensures forall x: byte :: FromBE([x]) == x && FromLE([x]) == x
  {
    assert forall x: byte :: [x][..0] == [] && [x][1..] == [];
  }

  /** Different bytes never decode to the same number: a changed field is a changed value. */
  lemma {:induction false} LittleEndianInjective(s: seq<byte>, t: seq<byte>)
    requires |s| == |t| && FromLE(s) == FromLE(t)
    ensures s == t
  {
    if s != [] {
      SameLast(FromLE(s[1..]), s[0], FromLE(t[1..]), t[0]);
      LittleEndianInjective(s[1..], t[1..]);
      assert s == [s[0]] + s[1..] && t == [t[0]] + t[1..];
    }
  }

  lemma {:induction false} BigEndianInjective(s: seq<byte>, t: seq<byte>)
    requires |s| == |t| && FromBE(s) == FromBE(t)
    ensures s == t
  {
    if s != [] {
      var n := |s| - 1;
      SameLast(FromBE(s[..n]), s[n], FromBE(t[..n]), t[n]);
      BigEndianInjective(s[..n], t[..n]);
      assert s == s[..n] + [s[n]] && t == t[..n] + [t[n]];
    }
  }

  lemma SameLast(a: nat, x: byte, b: nat, y: byte)
    requires 256 * a + x == 256 * b + y
    ensures a == b && x == y
  {
  }

  lemma BigEndianStored(s: seq<byte>)
    ensures ToBE(FromBE(s), |s|) == s
  {
    BigEndianRange(s);
    BigEndianRoundTrip(FromBE(s), |s|);
    BigEndianInjective(ToBE(FromBE(s), |s|), s);
  }

  /** The bytes of a text in the first 256 characters. */
  function Ascii(text: string): seq<byte> {
    seq(|text|, i requires 0 <= i < |text| => text[i] as int % 256)
  }

  lemma Widths(s: seq<byte>)
    ensures |s| == 2 ==> FromLE(s) < 0x1_0000 && FromBE(s) < 0x1_0000
    ensures |s| == 4 ==> FromLE(s) < U32_LIMIT && FromBE(s) < U32_LIMIT
    ensures |s| == 8 ==> FromLE(s) < U64_LIMIT && FromBE(s) < U64_LIMIT
  {
    Capacities();
    LittleEndianRange(s);
    BigEndianRange(s);
  }

  /** A little-endian number stored in `width` bytes at `at`. */
  function Field(data: seq<byte>, at: nat, width: nat): nat
    requires at + width <= |data|
  {
    FromLE(data[at..at + width])
  }

  /** The two byte strings agree outside `[p, p+n)`. */
  ghost predicate AgreeOutside(a: seq<byte>, b: seq<byte>, p: nat, n: nat) {
    |a| == |b| && forall i :: 0 <= i < |a| && !(p <= i < p + n) ==> a[i] == b[i]
  }

  ghost predicate AgreeOn(a: seq<byte>, b: seq<byte>, lo: nat, hi: nat) {
    hi <= |a| && hi <= |b| && forall i :: lo <= i < hi ==> a[i] == b[i]
  }

  lemma SameField(a: seq<byte>, b: seq<byte>, at: nat, width: nat)
    requires at + width <= |a| && at + width <= |b|
    ensures AgreeOn(a, b, at, at + width) <==> Field(a, at, width) == Field(b, at, width)
  {
    var x, y := a[at..at + width], b[at..at + width];
    if Field(a, at, width) == Field(b, at, width) {
      LittleEndianInjective(x, y);
      forall i | at <= i < at + width
        ensures a[i] == b[i]
      {
        assert x[i - at] == y[i - at];
      }
    }
    if AgreeOn(a, b, at, at + width) {
      assert x == y;
    }
  }

  /** `s` with `bytes` written over it from `at` on. */
  function Put(s: seq<byte>, at: nat, bytes: seq<byte>): (r: seq<byte>)
    requires at + |bytes| <= |s|
    ensures |r| == |s|
    ensures forall i :: 0 <= i < |s| ==> r[i] == if at <= i < at + |bytes| then bytes[i - at] else s[i]
  {
    s[..at] + bytes + s[at + |bytes|..]
  }

  lemma FieldWritten(data: seq<byte>, at: nat, n: nat, width: nat)
    requires at + width <= |data| && n < Capacity(width)
    requires forall i :: at <= i < at + width ==> data[i] == ToLE(n, width)[i - at]
    ensures Field(data, at, width) == n
  {
    LittleEndianRoundTrip(n, width);
    assert data[at..at + width] == ToLE(n, width);
  }

  /** Encoding what a field decodes to gives its bytes back. */
  lemma LittleEndianStored(s: seq<byte>)
    ensures ToLE(FromLE(s), |s|) == s
  {
    LittleEndianRange(s);
    LittleEndianRoundTrip(FromLE(s), |s|);
    LittleEndianInjective(ToLE(FromLE(s), |s|), s);
  }

  function Pow2(n: nat): nat {
    if n == 0 then 1 else 2 * Pow2(n - 1)
  }

  /** Both sides name the quotient and remainder of the same division. */
  lemma DivModUnique(n: nat, unit: nat, q: nat, r: nat)
    requires r < unit && n == q * unit + r
    ensures n / unit == q && n % unit == r
  {
    var d := n / unit - q;
    assert d * unit == r - n % unit by {
      assert n == (n / unit) * unit + n % unit;
      assert d * unit == (n / unit) * unit - q * unit;
    }
    if d >= 1 {
      MulMonotone(1, d, unit);
    } else if d <= -1 {
      MulMonotone(d, -1, unit);
    }
  }

  lemma MulMonotone(a: int, b: int, c: nat)
    requires a <= b
    ensures a * c <= b * c
  {
    assert (b - a) * c >= 0;
    assert (b - a) * c == b * c - a * c;
  }

  /** Moving `k` bytes within one unit keeps the unit and moves the remainder by `k`. */
  lemma SameUnit(at: nat, k: nat, unit: nat)
    requires unit > 0 && at % unit + k < unit
    ensures (at + k) / unit == at / unit && (at + k) % unit == at % unit + k
  {
    DivModUnique(at + k, unit, at / unit, at % unit + k);
  }

  lemma DivisionShrinks(n: u64, unit: nat)
    requires unit >= 512
    ensures 0 <= n / unit <= U64_LIMIT / 512
  {
  }

  /** `n` lies `r` into unit `q`. */
  ghost predicate Splits(n: nat, unit: nat, q: nat, r: nat) {
    n == q * unit + r && r < unit
  }

  lemma Split(n: nat, unit: nat) returns (q: nat, r: nat)
    requires unit > 0
    ensures Splits(n, unit, q, r) && n / unit == q && n % unit == r
  {
    q, r := n / unit, n % unit;
  }

  function Quotient(n: nat, d: nat): nat
    requires d > 0
  {
    n / d
  }

  function Remainder(n: nat, d: nat): nat
    requires d > 0
  {
    n % d
  }
}
