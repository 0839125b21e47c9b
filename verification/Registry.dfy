/** The extractor registry: flattened signatures, hit dispatch and per-extractor counters. */
module Registries {
  import opened Bytes
  import opened Sources
  import opened Extractors

  datatype Counters = Counters(seen: nat, accepted: nat, rejected: nat, emitted: nat)
  {
    function Plus(c: Counters): Counters {
      Counters(seen + c.seen, accepted + c.accepted, rejected + c.rejected, emitted + c.emitted)
    }
  }

  const ZERO: Counters := Counters(0, 0, 0, 0)

  // ----- flattening

  /** Signatures of the first `n` extractors, in registration order. */
  function Flattened(extractors: seq<Extractor>, n: nat): seq<seq<byte>>
    requires n <= |extractors|
  {
    if n == 0 then [] else Flattened(extractors, n - 1) + extractors[n - 1].signatures
  }

  /** First pattern id of extractor `e`: how many signatures were registered before it. */
  function FirstPattern(extractors: seq<Extractor>, e: nat): nat
    requires e <= |extractors|
  {
    if e == 0 then 0 else FirstPattern(extractors, e - 1) + |extractors[e - 1].signatures|
  }

  /** Pattern ids belong to extractors by intervals, and name their signatures. */
  ghost predicate Assigned(extractors: seq<Extractor>, patterns: seq<seq<byte>>, owners: seq<nat>, n: nat)
    requires n <= |extractors|
  {
    && |patterns| == |owners| == FirstPattern(extractors, n)
    && forall p :: 0 <= p < |owners| ==>
         && owners[p] < n
         && FirstPattern(extractors, owners[p]) <= p < FirstPattern(extractors, owners[p] + 1)
         && patterns[p] == extractors[owners[p]].signatures[p - FirstPattern(extractors, owners[p])]
  }

  method Flatten(extractors: seq<Extractor>) returns (patterns: seq<seq<byte>>, owners: seq<nat>)
    ensures Assigned(extractors, patterns, owners, |extractors|)
    ensures patterns == Flattened(extractors, |extractors|)
  {
    patterns, owners := [], [];
    for index := 0 to |extractors|
      invariant Assigned(extractors, patterns, owners, index)
      invariant patterns == Flattened(extractors, index)
    {
      var signatures := extractors[index].signatures;
      ghost var before := patterns;
      for k := 0 to |signatures|
        invariant |patterns| == |owners| == FirstPattern(extractors, index) + k
        invariant patterns == before + signatures[..k]
        invariant forall p :: 0 <= p < |owners| ==>
          && owners[p] <= index
          && FirstPattern(extractors, owners[p]) <= p < FirstPattern(extractors, owners[p] + 1)
          && patterns[p] == extractors[owners[p]].signatures[p - FirstPattern(extractors, owners[p])]
      {
        patterns := patterns + [signatures[k]];
        owners := owners + [index];
      }
      assert signatures[..|signatures|] == signatures;
    }
  }

  lemma {:induction false} FirstPatternGrows(extractors: seq<Extractor>, a: nat, b: nat)
    requires a <= b <= |extractors|
    ensures FirstPattern(extractors, a) <= FirstPattern(extractors, b)
  {
    if a < b {
      FirstPatternGrows(extractors, a, b - 1);
    }
  }

  /** Each pattern id has exactly one owner: the extractor whose interval of ids holds it. */
  lemma OwnerUnique(extractors: seq<Extractor>, patterns: seq<seq<byte>>, owners: seq<nat>, p: nat, e: nat)
    requires Assigned(extractors, patterns, owners, |extractors|) && p < |owners| && e < |extractors|
    ensures owners[p] == e <==> FirstPattern(extractors, e) <= p < FirstPattern(extractors, e + 1)
  {
    if e < owners[p] {
      FirstPatternGrows(extractors, e + 1, owners[p]);
    } else if owners[p] < e {
      FirstPatternGrows(extractors, owners[p] + 1, e);
    }
  }

  // ----- dispatch

  /** What becomes of one hit, whoever processes it. */
  datatype Outcome = Unknown | Rejected | Accepted(carved: seq<Carved>)
  {
    function Artefacts(): seq<Carved> {
      if Accepted? then carved else []
    }

    function Counted(): Counters {
      match this
      case Unknown => ZERO
      case Rejected => Counters(1, 0, 1, 0)
      case Accepted(carved) => Counters(1, 1, 0, |carved|)
    }
  }

  /** Bytes of lookahead at `offset`: bounded by the extractor and by what the source still holds. */
  function Lookahead(extractor: Extractor, size: nat, offset: nat): nat {
    Min(extractor.maxStructureSize, Max(size - offset, 0))
  }

  ghost function Judge(extractor: Extractor, s: Source, offset: nat): Outcome {
    var want := Lookahead(extractor, s.Size(), offset);
    if !Readable(s, offset, want) then Rejected else
    match extractor.extract(offset, Slice(s, offset, want))
    case Ok(carved) => Accepted(carved)
    case Err(_) => Rejected
  }

  /** What one hit does to its owner: seen always; rejected when a byte of the window cannot be read or the
      extractor refuses it; and otherwise accepted, with every artefact returned and counted. The window is as
      long as the extractor asks, cut at the end of the source. */
  ghost predicate Processed(extractor: Extractor, s: Source, offset: nat, before: Counters, after: Counters,
                            carved: seq<Carved>)
  {
    var left := if offset <= s.Size() then s.Size() - offset else 0;
    var want := if left < extractor.maxStructureSize then left else extractor.maxStructureSize;
    && after.seen == before.seen + 1
    && if Readable(s, offset, want) && extractor.extract(offset, Slice(s, offset, want)).Ok? then
         && extractor.extract(offset, Slice(s, offset, want)) == Ok(carved)
         && after.accepted == before.accepted + 1 && after.rejected == before.rejected
         && after.emitted == before.emitted + |carved|
       else
         && carved == []
         && after.accepted == before.accepted && after.rejected == before.rejected + 1
         && after.emitted == before.emitted
  }

  class Registry {
    const extractors: seq<Extractor>
    const patterns: seq<seq<byte>>
    const owners: seq<nat>
    var counters: seq<Counters>

    ghost predicate Valid()
      reads this
    {
      && Assigned(extractors, patterns, owners, |extractors|)
      && patterns == Flattened(extractors, |extractors|)
      && |counters| == |extractors|
    }

    constructor (registered: seq<Extractor>)
      ensures Valid() && extractors == registered
      ensures forall e :: 0 <= e < |counters| ==> counters[e] == ZERO
    {
      var flat, owned := Flatten(registered);
      extractors := registered;
      patterns := flat;
      owners := owned;
      counters := seq(|registered|, _ => ZERO);
    }

    /** The outcome of a hit on this registry. */
    ghost function OutcomeOf(s: Source, offset: nat, pattern: nat): Outcome
      requires Assigned(extractors, patterns, owners, |extractors|)
    {
      if pattern >= |owners| then Unknown else Judge(extractors[owners[pattern]], s, offset)
    }

    /** A hit is never an error: it yields its artefacts or none, is counted once as seen and once as
        accepted or rejected by its owner, and leaves every other extractor's counters alone. */
    method ExtractHit(s: Source, offset: u64, pattern: nat) returns (carved: seq<Carved>)
      requires Valid() && s.Valid()
      modifies this
      ensures Valid()
      ensures carved == OutcomeOf(s, offset, pattern).Artefacts()
      ensures pattern >= |owners| ==> carved == [] && counters == old(counters)
      ensures pattern < |owners| ==>
        var owner, before := owners[pattern], old(counters);
        counters == before[owner := before[owner].Plus(OutcomeOf(s, offset, pattern).Counted())]
      ensures pattern < |owners| ==>
        var owner, before := owners[pattern], old(counters);
        Processed(extractors[owner], s, offset, before[owner], counters[owner], carved)
    {
      if pattern >= |owners| {
        return [];
      }
      var owner := owners[pattern];
      var extractor := extractors[owner];
      counters := counters[owner := counters[owner].(seen := counters[owner].seen + 1)];
      var remaining := Max(s.Size() - offset, 0);
      var want := Min(extractor.maxStructureSize, remaining);
      var buf := new byte[want];
      var read := ReadExactAt(s, offset, buf, 0, want);
      if read.Err? {
        counters := counters[owner := counters[owner].(rejected := counters[owner].rejected + 1)];
        return [];
      }
      assert buf[0..want] == buf[..];
      match extractor.extract(offset, buf[..])
      case Ok(artefacts) =>
        counters := counters[owner := counters[owner].(accepted := counters[owner].accepted + 1)];
        counters := counters[owner := counters[owner].(emitted := counters[owner].emitted + |artefacts|)];
        return artefacts;
      case Err(_) =>
        counters := counters[owner := counters[owner].(rejected := counters[owner].rejected + 1)];
        return [];
    }
  }
}
