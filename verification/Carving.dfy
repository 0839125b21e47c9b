/** Scan, dispatch and validation composed: what carving a source for EVTX structures recovers. */
module Carving {
  import opened Bytes
  import opened Sources
  import opened Scan
  import opened Extractors
  import EvtxSound
  import opened Registries
  import opened Dispatch
  import RegistryRuns
  import Evtx

  /** A scanner can be built, and no source makes it refuse its layout. */
  predicate Scannable(patterns: seq<seq<byte>>, config: Config) {
    patterns != [] && NonZero(config) && FittedBlock(config).Some?
  }

  ghost function NaiveHits(registry: Registry, s: Source): seq<Hit> {
    Naive(s, registry.patterns, 0, s.Size(), s.Size())
  }

  /** Scan a source for the registry's signatures and dispatch every hit. */
  method Carve(registry: Registry, s: Source, config: Config) returns (r: Result<seq<Carved>, ScanError>)
    requires registry.Valid() && s.Valid() && Sane(config) && Fits(s, config.blockSize, config.overlap)
    requires Covered(registry.patterns, config.overlap)
    modifies registry
    ensures registry.Valid()
    ensures r.Ok? <==> Scannable(registry.patterns, config) && Readable(s, 0, s.Size())
    ensures r.Err? ==> registry.counters == old(registry.counters)
    ensures r.Ok? ==>
      && r.value == Extracted(registry, s, NaiveHits(registry, s))
      && Counted(registry, s, NaiveHits(registry, s), old(registry.counters), registry.counters)
  {
    hide ByteAt, Naive, Occurs, Assigned, Flattened, Registry.OutcomeOf, RegistryRuns.Total, Tasks, Counted, Covered,
      FittedBlock;
    var scanner := NewScanner(registry.patterns, config);
    if scanner.Err? { return Err(scanner.error); }
    var hits := Scan.Scan(s, registry.patterns, config);
    if hits.Err? { return Err(hits.error); }
    ScanIsNaive(s, registry.patterns, FittedBlock(config).value, config.overlap);
    NaiveExact(s, registry.patterns, 0, s.Size(), s.Size());
    NothingCounted(registry, s, registry.counters);
    var carved := [];
    for k := 0 to |hits.value|
      invariant registry.Valid()
      invariant carved == Extracted(registry, s, hits.value[..k])
      invariant Counted(registry, s, hits.value[..k], old(registry.counters), registry.counters)
    {
      var h := hits.value[k];
      assert h in hits.value;
      ghost var before := registry.counters;
      var artefacts := registry.ExtractHit(s, h.offset, h.pattern);
      OneCounted(registry, s, hits.value[..k], h, old(registry.counters), before, registry.counters);
      assert hits.value[..k + 1] == hits.value[..k] + [h];
      assert hits.value[..k + 1][..k] == hits.value[..k];
      carved := carved + artefacts;
    }
    assert hits.value[..|hits.value|] == hits.value;
    return Ok(carved);
  }

  /** The counters have grown by what the hits' outcomes count. */
  ghost predicate Counted(registry: Registry, s: Source, hits: seq<Hit>, before: seq<Counters>, after: seq<Counters>)
    requires Assigned(registry.extractors, registry.patterns, registry.owners, |registry.extractors|)
  {
    && |before| == |after|
    && forall e :: 0 <= e < |after| ==> after[e] == before[e].Plus(RegistryRuns.Total(Tasks(registry, s, hits), e))
  }

  lemma NothingCounted(registry: Registry, s: Source, counters: seq<Counters>)
    requires Assigned(registry.extractors, registry.patterns, registry.owners, |registry.extractors|)
    ensures Counted(registry, s, [], counters, counters)
  {
  }

  lemma OneCounted(registry: Registry, s: Source, hits: seq<Hit>, h: Hit, first: seq<Counters>, before: seq<Counters>,
                   after: seq<Counters>)
    requires Assigned(registry.extractors, registry.patterns, registry.owners, |registry.extractors|)
    requires |before| == |registry.extractors| && Counted(registry, s, hits, first, before)
    requires h.pattern >= |registry.owners| ==> after == before
    requires h.pattern < |registry.owners| ==>
      var owner := registry.owners[h.pattern];
      after == before[owner := before[owner].Plus(registry.OutcomeOf(s, h.offset, h.pattern).Counted())]
    ensures Counted(registry, s, hits + [h], first, after)
  {
    hide RegistryRuns.Total, Tasks, Registry.OutcomeOf;
    forall e | 0 <= e < |after|
      ensures after[e] == first[e].Plus(RegistryRuns.Total(Tasks(registry, s, hits + [h]), e))
    {
      HitCounted(registry, s, hits, h, e);
    }
  }

  // ----- EVTX

  /** The registry of one EVTX extractor. */
  ghost predicate IsEvtx(registry: Registry, config: Evtx.Config) {
    registry.extractors == [EvtxExtractor(config)]
    && Assigned(registry.extractors, registry.patterns, registry.owners, 1)
    && registry.patterns == Flattened(registry.extractors, 1)
  }

  /** The lookahead window at an offset: at most 64 KiB. */
  ghost function WindowAt(s: Source, offset: nat): seq<byte>
    requires offset <= s.Size() && Readable(s, 0, s.Size())
  {
    Slice(s, offset, Min(65536, s.Size() - offset))
  }

  /** What the EVTX extractor makes of one offset: an artefact if its window validates. */
  ghost function At(s: Source, config: Evtx.Config, offset: nat): seq<Carved>
    requires offset <= s.Size() && Readable(s, 0, s.Size())
  {
    match EvtxExtract(config, offset, WindowAt(s, offset))
    case Ok(carved) => carved
    case Err(_) => []
  }

  /** Trying every offset of the source in turn. */
  ghost function Survey(s: Source, config: Evtx.Config, n: nat): seq<Carved>
    requires n <= s.Size() && Readable(s, 0, s.Size())
  {
    if n == 0 then [] else Survey(s, config, n - 1) + At(s, config, n - 1)
  }

  lemma OccursInWindow(s: Source, magic: seq<byte>, offset: nat)
    requires offset <= s.Size() && Readable(s, 0, s.Size()) && |magic| <= Evtx.CHUNK_SIZE
    ensures Occurs(s, magic, offset, s.Size()) <==> Evtx.StartsWith(WindowAt(s, offset), magic)
  {
    hide ByteAt;
    var window := WindowAt(s, offset);
    if Evtx.StartsWith(window, magic) {
      forall i | offset <= i < offset + |magic|
        ensures ByteAt(s, i) == Some(magic[i - offset])
      {
        assert window[..|magic|][i - offset] == window[i - offset];
      }
    }
    if Occurs(s, magic, offset, s.Size()) {
      forall k | 0 <= k < |magic|
        ensures window[..|magic|][k] == magic[k]
      {
        assert ByteAt(s, offset + k) == Some(magic[offset + k - offset]);
      }
    }
  }

  lemma EvtxPatterns(registry: Registry, config: Evtx.Config)
    requires IsEvtx(registry, config)
    ensures registry.patterns == [Evtx.CHUNK_MAGIC, Evtx.RECORD_MAGIC, Evtx.FILE_MAGIC]
    ensures |registry.owners| == 3 && forall p :: 0 <= p < 3 ==> registry.owners[p] == 0
  {
    assert FirstPattern(registry.extractors, 1) == FirstPattern(registry.extractors, 0) + 3;
    assert Flattened(registry.extractors, 1) == Flattened(registry.extractors, 0) + registry.extractors[0].signatures;
  }

  /** The scan's precondition on the overlap, for EVTX: seven bytes, far below the default chunk. */
  lemma EvtxCovered(registry: Registry, config: Evtx.Config, overlap: nat)
    requires IsEvtx(registry, config)
    ensures Covered(registry.patterns, overlap) <==> overlap >= 7
  {
  }

  lemma {:induction false} ExtractedJoins(registry: Registry, s: Source, a: seq<Hit>, b: seq<Hit>)
    requires Assigned(registry.extractors, registry.patterns, registry.owners, |registry.extractors|)
    ensures Extracted(registry, s, a + b) == Extracted(registry, s, a) + Extracted(registry, s, b)
  {
    hide Assigned, Judge, Registry.OutcomeOf, Outcome.Artefacts, ByteAt;
    if b == [] {
      assert a + b == a;
    } else {
      ExtractedJoins(registry, s, a, b[..|b| - 1]);
      assert (a + b)[..|a + b| - 1] == a + b[..|b| - 1];
    }
  }

  /** Whichever signature a hit came through, dispatching it is trying its offset. */
  lemma HitTriesOffset(registry: Registry, s: Source, config: Evtx.Config, offset: nat, pattern: nat)
    requires IsEvtx(registry, config) && offset <= s.Size() && Readable(s, 0, s.Size()) && pattern < 3
    ensures registry.OutcomeOf(s, offset, pattern).Artefacts() == At(s, config, offset)
  {
    hide Judge, At;
    EvtxPatterns(registry, config);
    assert registry.owners[pattern] == 0;
    JudgedAlone(s, config, offset);
  }

  lemma JudgedAlone(s: Source, config: Evtx.Config, offset: nat)
    requires offset <= s.Size() && Readable(s, 0, s.Size())
    ensures Judge(EvtxExtractor(config), s, offset).Artefacts() == At(s, config, offset)
  {
    hide EvtxExtract, ByteAt, Slice;
    var want := Lookahead(EvtxExtractor(config), s.Size(), offset);
    ReadableWithin(s, 0, s.Size(), offset, want);
    assert WindowAt(s, offset) == Slice(s, offset, want);
  }

  /** The hits at one offset, dispatched, are the offset tried once. */
  lemma OffsetCarved(registry: Registry, s: Source, config: Evtx.Config, offset: nat)
    requires IsEvtx(registry, config) && offset <= s.Size() && Readable(s, 0, s.Size())
    ensures Extracted(registry, s, HitsAt(s, registry.patterns, |registry.patterns|, offset, s.Size())) ==
            At(s, config, offset)
  {
    hide Occurs, At, WindowAt, Evtx.StartsWith, ByteAt, Judge, Assigned, HitsAt, EvtxExtractor, Registry.OutcomeOf,
      EvtxExtract;
    EvtxPatterns(registry, config);
    var size := s.Size();
    var c, r, f := Occurs(s, Evtx.CHUNK_MAGIC, offset, size), Occurs(s, Evtx.RECORD_MAGIC, offset, size),
                   Occurs(s, Evtx.FILE_MAGIC, offset, size);
    OccursInWindow(s, Evtx.CHUNK_MAGIC, offset);
    OccursInWindow(s, Evtx.RECORD_MAGIC, offset);
    OccursInWindow(s, Evtx.FILE_MAGIC, offset);
    MagicsDiffer(WindowAt(s, offset));
    EvtxHits(s, registry.patterns, offset, size);
    var hits := HitsAt(s, registry.patterns, |registry.patterns|, offset, size);
    if c || r || f {
      var pattern := if c then CHUNK_SIGNATURE else if r then RECORD_SIGNATURE else FILE_SIGNATURE;
      assert hits == [Hit(offset, pattern)];
      HitTriesOffset(registry, s, config, offset, pattern);
      OneHit(registry, s, hits[0]);
    } else {
      NothingAt(s, config, offset);
    }
  }

  lemma NothingAt(s: Source, config: Evtx.Config, offset: nat)
    requires offset <= s.Size() && Readable(s, 0, s.Size())
    requires !Evtx.StartsWith(WindowAt(s, offset), Evtx.CHUNK_MAGIC)
    requires !Evtx.StartsWith(WindowAt(s, offset), Evtx.RECORD_MAGIC)
    requires !Evtx.StartsWith(WindowAt(s, offset), Evtx.FILE_MAGIC)
    ensures At(s, config, offset) == []
  {
  }

  lemma OneHit(registry: Registry, s: Source, h: Hit)
    requires Assigned(registry.extractors, registry.patterns, registry.owners, |registry.extractors|)
    ensures Extracted(registry, s, [h]) == registry.OutcomeOf(s, h.offset, h.pattern).Artefacts()
  {
  }

  lemma EvtxHits(s: Source, patterns: seq<seq<byte>>, at: nat, limit: nat)
    requires |patterns| == 3
    ensures HitsAt(s, patterns, 3, at, limit) ==
            (if Occurs(s, patterns[0], at, limit) then [Hit(at, 0)] else [])
            + (if Occurs(s, patterns[1], at, limit) then [Hit(at, 1)] else [])
            + (if Occurs(s, patterns[2], at, limit) then [Hit(at, 2)] else [])
  {
    hide Occurs;
    assert HitsAt(s, patterns, 1, at, limit) ==
           HitsAt(s, patterns, 0, at, limit) + if Occurs(s, patterns[0], at, limit) then [Hit(at, 0)] else [];
    assert HitsAt(s, patterns, 2, at, limit) ==
           HitsAt(s, patterns, 1, at, limit) + if Occurs(s, patterns[1], at, limit) then [Hit(at, 1)] else [];
  }

  /** Carving equals trying every offset: scanning for signatures loses nothing and repeats nothing. */
  lemma {:induction false} CarvedIsSurveyed(registry: Registry, s: Source, config: Evtx.Config, n: nat)
    requires IsEvtx(registry, config) && n <= s.Size() && Readable(s, 0, s.Size())
    ensures Extracted(registry, s, Naive(s, registry.patterns, 0, n, s.Size())) == Survey(s, config, n)
  {
    hide HitsAt, At, ByteAt, Registry.OutcomeOf;
    if n > 0 {
      CarvedIsSurveyed(registry, s, config, n - 1);
      OffsetCarved(registry, s, config, n - 1);
      ExtractedJoins(registry, s, Naive(s, registry.patterns, 0, n - 1, s.Size()),
                     HitsAt(s, registry.patterns, |registry.patterns|, n - 1, s.Size()));
    }
  }

  /** A carved artefact is a sound structure that the source holds at its offset, byte for byte. */
  ghost predicate Genuine(s: Source, config: Evtx.Config, a: Carved)
    requires Readable(s, 0, s.Size())
  {
    && a.offset < s.Size() && Readable(s, a.offset, |a.bytes|)
    && a.bytes == Slice(s, a.offset, |a.bytes|)
    && Yields(config, WindowAt(s, a.offset), a.kind, |a.bytes|)
  }

  /** A sound structure starts at the offset. */
  ghost predicate Validates(s: Source, config: Evtx.Config, offset: nat)
    requires offset <= s.Size() && Readable(s, 0, s.Size())
  {
    exists kind, len: nat :: Yields(config, WindowAt(s, offset), kind, len)
  }

  ghost predicate CarvedAt(carved: seq<Carved>, offset: nat) {
    exists k :: 0 <= k < |carved| && carved[k].offset == offset
  }

  predicate InOrder(carved: seq<Carved>) {
    forall i, j :: 0 <= i < j < |carved| ==> carved[i].offset < carved[j].offset
  }

  /** What a survey of the first `n` offsets holds: exactly one artefact at each offset whose window
      validates, none elsewhere, in strictly ascending offset order, each made of the source's own bytes
      at its offset. */
  lemma {:induction false} SurveyExact(s: Source, config: Evtx.Config, n: nat)
    requires n <= s.Size() && Readable(s, 0, s.Size())
    ensures InOrder(Survey(s, config, n))
    ensures forall k :: 0 <= k < |Survey(s, config, n)| ==>
              Survey(s, config, n)[k].offset < n && Genuine(s, config, Survey(s, config, n)[k])
    ensures forall offset: nat :: CarvedAt(Survey(s, config, n), offset) <==> offset < n && Validates(s, config, offset)
  {
    hide EvtxExtract, ByteAt, Slice, Genuine, Validates, At;
    if n > 0 {
      var before, here := Survey(s, config, n - 1), At(s, config, n - 1);
      SurveyExact(s, config, n - 1);
      OffsetExact(s, config, n - 1);
      var carved := before + here;
      forall offset: nat
        ensures CarvedAt(carved, offset) <==> offset < n && Validates(s, config, offset)
      {
        if offset == n - 1 {
          if here != [] {
            assert carved[|before|].offset == offset;
          }
        } else {
          assert CarvedAt(carved, offset) <==> CarvedAt(before, offset) by {
            if k :| 0 <= k < |before| && before[k].offset == offset {
              assert carved[k].offset == offset;
            }
          }
        }
      }
    }
  }

  lemma OffsetExact(s: Source, config: Evtx.Config, offset: nat)
    requires offset < s.Size() && Readable(s, 0, s.Size())
    ensures var here := At(s, config, offset);
      && |here| <= 1
      && (here != [] <==> Validates(s, config, offset))
      && (here != [] ==> here[0].offset == offset && Genuine(s, config, here[0]))
  {
    hide EvtxExtract, ByteAt, Yields, Slice;
    var window := WindowAt(s, offset);
    ExtractYields(config, offset, window);
    if EvtxExtract(config, offset, window).Ok? {
      var kind, len: nat :| Yields(config, window, kind, len) && len <= |window| &&
                            EvtxExtract(config, offset, window) == Ok([Carved(offset, kind, window[..len])]);
      SliceStarts(s, offset, |window|, len);
    }
  }

  lemma SliceStarts(s: Source, at: nat, n: nat, m: nat)
    requires Readable(s, at, n) && m <= n
    ensures Readable(s, at, m) && Slice(s, at, m) == Slice(s, at, n)[..m]
  {
  }

  /** Exactly one artefact at every offset where a sound structure starts, none elsewhere, in offset order,
      each that structure's own bytes. */
  ghost predicate Exact(s: Source, config: Evtx.Config, carved: seq<Carved>)
    requires Readable(s, 0, s.Size())
  {
    && InOrder(carved)
    && (forall k :: 0 <= k < |carved| ==> Genuine(s, config, carved[k]))
    && (forall offset: nat :: CarvedAt(carved, offset) <==> offset < s.Size() && Validates(s, config, offset))
  }

  /** What an exact carving holds where a sound structure starts: that structure and nothing else. */
  lemma ExactAt(s: Source, config: Evtx.Config, carved: seq<Carved>, offset: nat, kind: string, len: nat)
    requires Readable(s, 0, s.Size()) && Exact(s, config, carved)
    requires offset < s.Size() && Yields(config, WindowAt(s, offset), kind, len)
    ensures len <= s.Size() - offset && Readable(s, offset, len)
    ensures
      var a := Carved(offset, kind, Slice(s, offset, len));
      a in carved && forall k :: 0 <= k < |carved| && carved[k].offset == offset ==> carved[k] == a
  {
    hide EvtxExtract, InOrder, ByteAt, Slice, Yields;
    ExtractYields(config, offset, WindowAt(s, offset));
    SliceStarts(s, offset, Min(65536, s.Size() - offset), len);
    assert Validates(s, config, offset);
    assert CarvedAt(carved, offset);
    forall k | 0 <= k < |carved| && carved[k].offset == offset
      ensures carved[k] == Carved(offset, kind, Slice(s, offset, len))
    {
      assert Genuine(s, config, carved[k]);
      OneKind(config, offset, WindowAt(s, offset), kind, len, carved[k].kind, |carved[k].bytes|);
    }
  }

  lemma OneKind(config: Evtx.Config, offset: nat, w: seq<byte>, kind: string, len: nat, other: string, more: nat)
    requires Yields(config, w, kind, len) && Yields(config, w, other, more)
    ensures kind == other && len == more
  {
    hide EvtxExtract, Yields;
    ExtractYields(config, offset, w);
    assert |w[..len]| == len && |w[..more]| == more;
  }

  /** What scan and dispatch make of a readable source is exact. */
  lemma EvtxCarvingExact(registry: Registry, s: Source, config: Evtx.Config)
    requires IsEvtx(registry, config) && Readable(s, 0, s.Size())
    ensures Exact(s, config, Extracted(registry, s, NaiveHits(registry, s)))
  {
    hide Naive, Survey, Extracted, Genuine, Validates, CarvedAt, InOrder;
    CarvedIsSurveyed(registry, s, config, s.Size());
    SurveyExact(s, config, s.Size());
  }

  /** End to end: building the registry, scanning and dispatching. With a workable layout and at least seven
      bytes of overlap it fails only on an unreadable source, and otherwise returns exactly what is there. */
  method CarveEvtx(s: Source, layout: Config, config: Evtx.Config) returns (r: Result<seq<Carved>, ScanError>)
    requires s.Valid() && Sane(layout) && Fits(s, layout.blockSize, layout.overlap) && layout.overlap >= 7
    ensures r.Ok? <==> NonZero(layout) && FittedBlock(layout).Some? && Readable(s, 0, s.Size())
    ensures r.Ok? ==> Exact(s, config, r.value)
  {
    hide Extracted, Exact, FittedBlock, NonZero, Covered, ByteAt, Naive, EvtxExtractor;
    var registry := new Registry([EvtxExtractor(config)]);
    EvtxPatterns(registry, config);
    EvtxCovered(registry, config, layout.overlap);
    r := Carve(registry, s, layout);
    if r.Ok? {
      EvtxCarvingExact(registry, s, config);
    }
  }
}
