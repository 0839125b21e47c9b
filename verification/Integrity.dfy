/** Hashing a whole source through short reads, and the open and close checks built on the hash. */
module Integrity {
  import opened Bytes
  import opened Sources
  import opened Windows

  // ----- the hash, as far as its callers rely on it

  /** A streaming hash of any internal state: how it starts, takes in bytes and finishes. */
  datatype Hasher<!S(!new)> = Hasher(init: S, update: (S, seq<byte>) -> S, finalize: S -> seq<byte>)
  {
    /** Feeding two pieces is feeding their concatenation, and nothing is fed by an empty piece. */
    ghost predicate Lawful() {
      && (forall s :: update(s, []) == s)
      && (forall s, a, b :: update(update(s, a), b) == update(s, a + b))
    }

    /** The one-shot hash. */
    function Digest(bytes: seq<byte>): seq<byte> {
      finalize(update(init, bytes))
    }
  }

  /** The digit of a nibble, as `{:02x}` writes it. */
  function HexDigit(n: nat): char
    requires n < 16
  {
    "0123456789abcdef"[n]
  }

  function HexPair(b: byte): (s: string)
    ensures |s| == 2 && Reads(s[0], s[1], b)
  {
    DigitRead(b / 16);
    DigitRead(b % 16);
    [HexDigit(b / 16), HexDigit(b % 16)]
  }

  function Hex(bytes: seq<byte>): (s: string)
    ensures Renders(s, bytes)
  {
    if bytes == [] then "" else
    Hex(bytes[..|bytes| - 1]) + HexPair(bytes[|bytes| - 1])
  }

  /** Value of a digit, read as a number in base 16. */
  function DigitValue(c: char): nat {
    if '0' <= c <= '9' then c as nat - 48 else if 'a' <= c <= 'f' then c as nat - 87 else 16
  }

  /** Two lowercase digits a byte, high digit first: reading them in base 16 gives the bytes back. */
  ghost predicate Renders(text: string, bytes: seq<byte>) {
    && |text| == 2 * |bytes|
    && forall i :: 0 <= i < |bytes| ==> Reads(text[2 * i], text[2 * i + 1], bytes[i])
  }

  predicate Reads(high: char, low: char, b: byte) {
    && DigitValue(high) < 16 && DigitValue(low) < 16
    && 16 * DigitValue(high) + DigitValue(low) == b
  }

  lemma DigitRead(n: nat)
    requires n < 16
    ensures DigitValue(HexDigit(n)) == n
  {
  }

  /** Bytes have only one rendering. */
  lemma RenderedOnce(a: string, b: string, bytes: seq<byte>)
    requires Renders(a, bytes) && Renders(b, bytes)
    ensures a == b
  {
    forall k | 0 <= k < |a|
      ensures a[k] == b[k]
    {
      var i := k / 2;
      assert Reads(a[2 * i], a[2 * i + 1], bytes[i]) && Reads(b[2 * i], b[2 * i + 1], bytes[i]);
      ReadOnce(a[2 * i], a[2 * i + 1], b[2 * i], b[2 * i + 1], bytes[i]);
    }
  }

  lemma ReadOnce(a: char, b: char, c: char, d: char, x: byte)
    requires Reads(a, b, x) && Reads(c, d, x)
    ensures a == c && b == d
  {
  }

  /** `hex`: two digits appended for each byte. */
  method WriteHex(bytes: seq<byte>) returns (out: string)
    ensures out == Hex(bytes) && Renders(out, bytes)
  {
    out := "";
    for k := 0 to |bytes|
      invariant out == Hex(bytes[..k])
    {
      assert bytes[..k + 1][..k] == bytes[..k];
      out := out + HexPair(bytes[k]);
    }
    assert bytes[..|bytes|] == bytes;
  }

  predicate IsHexDigit(c: char) {
    '0' <= c <= '9' || 'a' <= c <= 'f'
  }

  lemma {:induction false} HexDigits(bytes: seq<byte>)
    ensures forall i :: 0 <= i < |Hex(bytes)| ==> IsHexDigit(Hex(bytes)[i])
  {
    if bytes != [] {
      HexDigits(bytes[..|bytes| - 1]);
    }
  }

  /** Equal renderings come from equal digests, so comparing the strings compares the digests. */
  lemma HexInjective(a: seq<byte>, b: seq<byte>)
    requires Hex(a) == Hex(b)
    ensures a == b
  {
    hide Reads;
    var text := Hex(a);
    assert Renders(text, a) && Renders(text, b);
    forall i | 0 <= i < |a|
      ensures a[i] == b[i]
    {
      ReadAlike(text[2 * i], text[2 * i + 1], a[i], b[i]);
    }
  }

  lemma ReadAlike(high: char, low: char, a: byte, b: byte)
    requires Reads(high, low, a) && Reads(high, low, b)
    ensures a == b
  {
  }

  // ----- hashing a source

  const BUFFER: nat := 64 * 1024

  /** A source read from its start to its end, one call at a time. */
  class SourceReader {
    const src: Source
    var pos: nat

    ghost predicate Valid() reads this {
      src.Valid() && pos <= src.Size()
    }

    constructor (src: Source)
      requires src.Valid()
      ensures Valid() && this.src == src && pos == 0
    {
      this.src := src;
      pos := 0;
    }

    /** Delivers the bytes after the last ones delivered; none only at the end. */
    method Read(buf: array<byte>) returns (r: Result<nat, SourceError>)
      requires Valid() && buf.Length > 0
      modifies this`pos, buf
      ensures Valid()
      ensures r.Ok? ==> pos == old(pos) + r.value && r.value <= buf.Length
      ensures r.Ok? ==> Delivered(src, old(pos), buf[..], 0, r.value)
      ensures r.Ok? && r.value == 0 ==> pos == src.Size()
      ensures r.Err? ==> pos == old(pos) && !Readable(src, 0, src.Size())
    {
      hide ByteAt;
      r := ReadAt(src, pos, buf, 0, buf.Length);
      if r.Ok? {
        pos := pos + r.value;
      } else {
        ReadableWithin(src, 0, src.Size(), pos, Min(buf.Length, src.Size() - pos));
      }
    }
  }

  /** `hash_source`: succeeds exactly when every byte of the source resolves, and then renders the
      one-shot hash of the flat contents, whatever the sizes of the reads on the way. */
  method HashSource<S(!new)>(h: Hasher<S>, src: Source) returns (r: Result<string, SourceError>)
    requires h.Lawful() && src.Valid()
    ensures r.Ok? <==> Readable(src, 0, src.Size())
    ensures r.Ok? ==> r.value == Hex(h.Digest(Slice(src, 0, src.Size())))
    ensures r.Ok? ==> Renders(r.value, h.Digest(Slice(src, 0, src.Size())))
  {
    hide ByteAt, Hex, Hasher.Lawful, Readable, Delivered;
    FedNothing(h, src);
    var reader := new SourceReader(src);
    var state := h.init;
    var buf := new byte[BUFFER];
    while true
      invariant reader.Valid() && reader.src == src && fresh(reader) && fresh(buf) && buf.Length == BUFFER
      invariant Readable(src, 0, reader.pos)
      invariant state == Fed(h, src, reader.pos)
      decreases src.Size() - reader.pos
    {
      ghost var before := reader.pos;
      var n := reader.Read(buf);
      if n.Err? {
        return Err(n.error);
      }
      if n.value == 0 {
        break;
      }
      FirstPiece(src, before, buf[..], n.value);
      FedMore(h, src, before, buf[..n.value]);
      state := h.update(state, buf[..n.value]);
    }
    var hex := WriteHex(h.finalize(state));
    return Ok(hex);
  }

  /** The hash state after the first `n` bytes of a source. */
  ghost function Fed<S(!new)>(h: Hasher<S>, src: Source, n: nat): S
    requires Readable(src, 0, n)
  {
    h.update(h.init, Slice(src, 0, n))
  }

  lemma FedMore<S(!new)>(h: Hasher<S>, src: Source, n: nat, piece: seq<byte>)
    requires h.Lawful() && Readable(src, 0, n) && Delivered(src, n, piece, 0, |piece|)
    ensures Readable(src, 0, n + |piece|)
    ensures Fed(h, src, n + |piece|) == h.update(Fed(h, src, n), piece)
  {
    hide ByteAt, Readable;
    DeliveredReadable(src, n, piece, 0, |piece|);
    SliceDelivered(src, n, piece, 0, |piece|);
    AdjacentReads(src, 0, n, |piece|);
    assert piece[0..|piece|] == piece;
  }

  lemma FedNothing<S(!new)>(h: Hasher<S>, src: Source)
    requires h.Lawful()
    ensures Readable(src, 0, 0) && Fed(h, src, 0) == h.init
  {
  }

  lemma FirstPiece(src: Source, at: nat, buf: seq<byte>, n: nat)
    requires Delivered(src, at, buf, 0, n)
    ensures Delivered(src, at, buf[..n], 0, n)
  {
  }

  // ----- the expected hash

  /** Unicode White_Space. */
  predicate White(c: char) {
    var u := c as int;
    || 0x9 <= u <= 0xD || u == 0x20 || u == 0x85 || u == 0xA0 || u == 0x1680 || 0x2000 <= u <= 0x200A
    || u == 0x2028 || u == 0x2029 || u == 0x202F || u == 0x205F || u == 0x3000
  }

  function TrimStart(s: string): string {
    if s != "" && White(s[0]) then TrimStart(s[1..]) else s
  }

  function TrimEnd(s: string): string {
    if s != "" && White(s[|s| - 1]) then TrimEnd(s[..|s| - 1]) else s
  }

  function LowerChar(c: char): char {
    if 'A' <= c <= 'Z' then c + ' ' else c
  }

  function Lower(s: string): (r: string)
    ensures |r| == |s|
  {
    seq(|s|, i requires 0 <= i < |s| => LowerChar(s[i]))
  }

  /** `trim().to_ascii_lowercase()`. */
  function Normalized(s: string): string {
    Lower(TrimEnd(TrimStart(s)))
  }

  /** The same property, character by character. */
  predicate Blank(c: char) {
    c as int in {0x9, 0xA, 0xB, 0xC, 0xD, 0x20, 0x85, 0xA0, 0x1680, 0x2000, 0x2001, 0x2002, 0x2003, 0x2004, 0x2005,
                 0x2006, 0x2007, 0x2008, 0x2009, 0x200A, 0x2028, 0x2029, 0x202F, 0x205F, 0x3000}
  }

  lemma WhiteIsBlank(c: char)
    ensures White(c) <==> Blank(c)
  {
  }

  ghost predicate AllWhite(s: string) {
    forall i :: 0 <= i < |s| ==> White(s[i])
  }

  ghost predicate AllBlank(s: string) {
    forall i :: 0 <= i < |s| ==> Blank(s[i])
  }

  lemma WhiteAreBlank(s: string)
    ensures AllWhite(s) <==> AllBlank(s)
  {
    hide White, Blank;
    forall i | 0 <= i < |s|
      ensures White(s[i]) <==> Blank(s[i])
    {
      WhiteIsBlank(s[i]);
    }
  }

  /** A digit of the hash, or its capital. */
  predicate Spelling(c: char, digit: char) {
    c == digit || exists k :: 0 <= k < 6 && c == "ABCDEF"[k] && digit == "abcdef"[k]
  }

  lemma LowerSpells(c: char, digit: char)
    requires IsHexDigit(digit)
    ensures LowerChar(c) == digit <==> Spelling(c, digit)
  {
    if LowerChar(c) == digit && c != digit {
      var k := c as int - 65;
      assert 0 <= k < 6 && c == "ABCDEF"[k] && digit == "abcdef"[k];
    }
  }

  /** `text` is the hash in either letter case, with white space around it. */
  ghost predicate Spells(text: string, hash: string) {
    exists lead: nat :: SpelledAt(text, hash, lead)
  }

  ghost predicate SpelledAt(text: string, hash: string, lead: nat) {
    && lead + |hash| <= |text|
    && AllBlank(text[..lead]) && AllBlank(text[lead + |hash|..])
    && forall i :: 0 <= i < |hash| ==> Spelling(text[lead + i], hash[i])
  }

  lemma {:induction false} TrimStartTakes(s: string) returns (lead: nat)
    ensures lead <= |s| && TrimStart(s) == s[lead..] && AllWhite(s[..lead])
    ensures lead < |s| ==> !White(s[lead])
  {
    if s != "" && White(s[0]) {
      var k := TrimStartTakes(s[1..]);
      lead := k + 1;
      assert s[..lead] == [s[0]] + s[1..][..k];
    } else {
      lead := 0;
    }
  }

  lemma {:induction false} TrimEndTakes(s: string) returns (keep: nat)
    ensures keep <= |s| && TrimEnd(s) == s[..keep] && AllWhite(s[keep..])
    ensures keep > 0 ==> !White(s[keep - 1])
  {
    if s != "" && White(s[|s| - 1]) {
      keep := TrimEndTakes(s[..|s| - 1]);
      assert s[keep..] == s[..|s| - 1][keep..] + [s[|s| - 1]];
    } else {
      keep := |s|;
    }
  }

  lemma {:induction false} TrimStartSkips(white: string, s: string)
    requires AllWhite(white) && (s != "" ==> !White(s[0]))
    ensures TrimStart(white + s) == s
  {
    if white == "" {
      assert white + s == s;
    } else {
      assert (white + s)[1..] == white[1..] + s;
      TrimStartSkips(white[1..], s);
    }
  }

  lemma {:induction false} TrimEndSkips(s: string, white: string)
    requires AllWhite(white) && (s != "" ==> !White(s[|s| - 1]))
    ensures TrimEnd(s + white) == s
  {
    if white == "" {
      assert s + white == s;
    } else {
      assert (s + white)[..|s + white| - 1] == s + white[..|white| - 1];
      TrimEndSkips(s, white[..|white| - 1]);
    }
  }

  lemma LowerSpelled(core: string, hash: string)
    requires |core| == |hash| && forall i :: 0 <= i < |hash| ==> IsHexDigit(hash[i])
    ensures Lower(core) == hash <==> forall i :: 0 <= i < |hash| ==> Spelling(core[i], hash[i])
  {
    hide Spelling, LowerChar, IsHexDigit;
    var lower := Lower(core);
    forall i | 0 <= i < |hash|
      ensures lower[i] == hash[i] <==> Spelling(core[i], hash[i])
    {
      LowerSpells(core[i], hash[i]);
    }
  }

  lemma SpelledCore(text: string, hash: string, lead: nat)
    requires lead + |hash| <= |text| && forall i :: 0 <= i < |hash| ==> IsHexDigit(hash[i])
    ensures SpelledAt(text, hash, lead) <==>
      && AllWhite(text[..lead]) && AllWhite(text[lead + |hash|..])
      && Lower(text[lead..lead + |hash|]) == hash
  {
    hide Spelling, AllWhite, AllBlank, Lower, IsHexDigit;
    var core := text[lead..lead + |hash|];
    WhiteAreBlank(text[..lead]);
    WhiteAreBlank(text[lead + |hash|..]);
    LowerSpelled(core, hash);
    assert forall i :: 0 <= i < |hash| ==> core[i] == text[lead + i];
  }

  /** What is accepted as an expected hash: for a rendered digest, exactly its spellings. */
  lemma NormalizedSpells(text: string, digest: seq<byte>)
    ensures Normalized(text) == Hex(digest) <==> Spells(text, Hex(digest))
  {
    hide Hex, TrimStart, TrimEnd, Lower, SpelledAt, AllWhite, IsHexDigit;
    var hash := Hex(digest);
    HexDigits(digest);
    if Normalized(text) == hash {
      var lead := TrimStartTakes(text);
      var keep := TrimEndTakes(text[lead..]);
      assert text[lead..][..keep] == text[lead..lead + keep];
      assert text[lead..][keep..] == text[lead + keep..];
      SpelledCore(text, hash, lead);
    }
    if Spells(text, hash) {
      var lead: nat :| SpelledAt(text, hash, lead);
      SpelledFits(text, hash, lead);
      SpelledCore(text, hash, lead);
      var end := lead + |hash|;
      SpellingNormalizes(text[..lead], text[lead..end], text[end..], hash);
      assert text == text[..lead] + (text[lead..end] + text[end..]);
    }
  }

  lemma SpelledFits(text: string, hash: string, lead: nat)
    requires SpelledAt(text, hash, lead)
    ensures lead + |hash| <= |text|
  {
  }

  lemma SpellingNormalizes(lead: string, core: string, tail: string, hash: string)
    requires AllWhite(lead) && AllWhite(tail) && Lower(core) == hash
    requires forall i :: 0 <= i < |hash| ==> IsHexDigit(hash[i])
    ensures Normalized(lead + (core + tail)) == hash
  {
    hide TrimStart, TrimEnd;
    forall i | 0 <= i < |core|
      ensures !White(core[i])
    {
      assert hash[i] == LowerChar(core[i]);
    }
    if core == "" {
      AllTrimmed(lead + (core + tail));
    } else {
      TrimStartSkips(lead, core + tail);
      TrimEndSkips(core, tail);
    }
  }

  lemma AllTrimmed(s: string)
    requires AllWhite(s)
    ensures TrimEnd(TrimStart(s)) == ""
  {
  }

  // ----- open and close

  datatype IntegrityError =
    | ExpectedMismatch(expected: string, computed: string)
    | SourceChanged(open: string, close: string)
    | Unreadable(error: SourceError)

  datatype VerifiedSource = VerifiedSource(source: Source, openHash: string)

  ghost function HashOf<S(!new)>(h: Hasher<S>, src: Source): (r: string)
    requires Readable(src, 0, src.Size())
    ensures Renders(r, h.Digest(Slice(src, 0, src.Size())))
  {
    Hex(h.Digest(Slice(src, 0, src.Size())))
  }

  /** `wrap`: opens exactly a fully readable source whose hash the expected text, if any, spells. */
  method Wrap<S(!new)>(h: Hasher<S>, src: Source, expected: Option<string>)
    returns (r: Result<VerifiedSource, IntegrityError>)
    requires h.Lawful() && src.Valid()
    ensures r.Err? && r.error.Unreadable? <==> !Readable(src, 0, src.Size())
    ensures Readable(src, 0, src.Size()) ==>
      && (r.Ok? <==> expected.None? || Spells(expected.value, HashOf(h, src)))
      && (r.Ok? ==> r.value == VerifiedSource(src, HashOf(h, src)))
      && (r.Err? ==> r.error == ExpectedMismatch(Normalized(expected.value), HashOf(h, src)))
  {
    hide Hex, Spells, ByteAt;
    var hash := HashSource(h, src);
    if hash.Err? {
      return Err(Unreadable(hash.error));
    }
    if expected.Some? {
      NormalizedSpells(expected.value, h.Digest(Slice(src, 0, src.Size())));
      var want := Normalized(expected.value);
      if want != hash.value {
        return Err(ExpectedMismatch(want, hash.value));
      }
    }
    return Ok(VerifiedSource(src, hash.value));
  }

  /** `finish`, given what the source holds when it runs: succeeds exactly when that is readable and has
      the digest of what was opened, so a change goes unnoticed only if the two contents collide. */
  method Finish<S(!new)>(h: Hasher<S>, v: VerifiedSource, now: Source) returns (r: Result<string, IntegrityError>)
    requires h.Lawful() && v.source.Valid() && now.Valid()
    requires Readable(v.source, 0, v.source.Size()) && v.openHash == HashOf(h, v.source)
    ensures r.Err? && r.error.Unreadable? <==> !Readable(now, 0, now.Size())
    ensures Readable(now, 0, now.Size()) ==>
      && (r.Ok? <==> h.Digest(Slice(now, 0, now.Size())) == h.Digest(Slice(v.source, 0, v.source.Size())))
      && (r.Ok? ==> r.value == v.openHash)
      && (r.Err? ==> r.error == SourceChanged(v.openHash, HashOf(h, now)))
  {
    hide Hex, ByteAt;
    var hash := HashSource(h, now);
    if hash.Err? {
      return Err(Unreadable(hash.error));
    }
    if hash.value != v.openHash {
      return Err(SourceChanged(v.openHash, hash.value));
    }
    HexInjective(h.Digest(Slice(now, 0, now.Size())), h.Digest(Slice(v.source, 0, v.source.Size())));
    return Ok(hash.value);
  }
}
