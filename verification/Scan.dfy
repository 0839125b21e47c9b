/** The block scan engine: layout planning, one block's search, and the whole scan against naive search. */
module Scan {
  import opened Bytes
  import opened Sources

  const MIN_BLOCK_SIZE: nat := 4096

  /** A signature match; the derived order compares the offset first. */
  datatype Hit = Hit(offset: nat, pattern: nat)

  predicate Before(a: Hit, b: Hit) {
    a.offset < b.offset || (a.offset == b.offset && a.pattern < b.pattern)
  }

  datatype Config = Config(blockSize: u64, overlap: u64, threads: u64, memoryBudget: u64)

  datatype Plan = Plan(blockSize: u64, overlap: u64, workers: u64, blockCount: u64, sourceSize: u64)

  datatype ScanError = InvalidConfig | NoPatterns | SourceFailed(error: SourceError)

  // ----- layout

  function BlockCount(size: nat, blockSize: nat): nat
    requires blockSize > 0
  {
    (size + blockSize - 1) / blockSize
  }

  /** The largest block that fits the budget beside its overlap, when it is not too small to be useful. */
  function FittedBlock(config: Config): Option<nat> {
    if config.blockSize + config.overlap <= config.memoryBudget then Some(config.blockSize)
    else if config.memoryBudget < MIN_BLOCK_SIZE + config.overlap then None
    else Some(config.memoryBudget - config.overlap)
  }

  predicate NonZero(config: Config) {
    config.overlap != 0 && config.blockSize != 0 && config.threads != 0
  }

  /** `block_size + overlap` and the smallest buffer are computed without a check. */
  predicate Sane(config: Config) {
    Max(config.blockSize, MIN_BLOCK_SIZE) + config.overlap < U64_LIMIT
  }

  /** What a plan promises the scan: blocks no larger than asked, at least one worker and no more than
      asked, buffers that together stay within the budget, and blocks that tile the source. */
  ghost predicate Sound(config: Config, size: nat, plan: Plan) {
    && 1 <= plan.blockSize <= config.blockSize
    && plan.overlap == config.overlap
    && 1 <= plan.workers <= config.threads
    && plan.workers * (plan.blockSize + plan.overlap) <= config.memoryBudget
    && plan.sourceSize == size
    && plan.blockCount == BlockCount(size, plan.blockSize)
  }

  /** A block the plan may use: the one asked for, or a smaller one of at least 4 KiB, and it fits the budget
      beside its overlap. */
  predicate Allowed(config: Config, block: nat) {
    && (block == config.blockSize || 4096 <= block < config.blockSize)
    && block + config.overlap <= config.memoryBudget
  }

  /** The block size used is the largest allowed one, and there is none exactly when none is allowed. */
  lemma FittedLargest(config: Config)
    ensures FittedBlock(config).None? <==> forall block: nat :: !Allowed(config, block)
    ensures FittedBlock(config).Some? ==>
      && Allowed(config, FittedBlock(config).value)
      && forall block: nat :: Allowed(config, block) ==> block <= FittedBlock(config).value
  {
    assert FittedBlock(config).Some? ==> Allowed(config, FittedBlock(config).value);
  }

  method Resolve(config: Config, sourceSize: u64) returns (r: Result<Plan, ScanError>)
    requires Sane(config)
    ensures r.Ok? <==> NonZero(config) && FittedBlock(config).Some?
    ensures r.Err? ==> r.error == InvalidConfig
    ensures config.overlap == 0 || config.blockSize == 0 || config.threads == 0 ==> r.Err?
    ensures config.overlap > 0 && config.threads > 0 ==>
      (r.Ok? <==> exists block: nat :: block > 0 && Allowed(config, block))
    ensures r.Ok? ==> Sound(config, sourceSize, r.value)
    ensures r.Ok? ==> r.value.blockSize == FittedBlock(config).value
    // As many workers as the budget and the request allow: one more would exceed one of them.
    ensures r.Ok? ==> r.value.workers == config.threads ||
                      (r.value.workers + 1) * (r.value.blockSize + r.value.overlap) > config.memoryBudget
  {
    FittedLargest(config);
    if config.overlap == 0 { return Err(InvalidConfig); }
    if config.blockSize == 0 { return Err(InvalidConfig); }
    if config.threads == 0 { return Err(InvalidConfig); }
    var overlap := config.overlap;
    var blockSize := config.blockSize;
    if blockSize + overlap > config.memoryBudget {
      var smallestBuffer: u64 := MIN_BLOCK_SIZE + overlap;
      if config.memoryBudget < smallestBuffer {
        return Err(InvalidConfig);
      }
      blockSize := config.memoryBudget - overlap;
    }
    var buffer: u64 := blockSize + overlap;
    WorkersFit(config.memoryBudget, buffer, config.threads);
    var byBudget := Max(config.memoryBudget / buffer, 1);
    var workers := Max(Min(config.threads, byBudget), 1);
    CountFits(sourceSize, blockSize);
    return Ok(Plan(blockSize, overlap, workers, BlockCount(sourceSize, blockSize), sourceSize));
  }

  datatype Scanner = Scanner(patterns: seq<seq<byte>>, config: Config)

  /** `Scanner::new`: accepts exactly what `Scan` then never refuses, whatever the size of the source. */
  method NewScanner(patterns: seq<seq<byte>>, config: Config) returns (r: Result<Scanner, ScanError>)
    requires Sane(config)
    ensures r.Ok? <==> patterns != [] && NonZero(config) && FittedBlock(config).Some?
    ensures r.Ok? ==> r.value == Scanner(patterns, config)
    ensures r == Err(NoPatterns) <==> patterns == []
  {
    if patterns == [] { return Err(NoPatterns); }
    var plan := Resolve(config, 0);
    if plan.Err? { return Err(plan.error); }
    return Ok(Scanner(patterns, config));
  }

  lemma WorkersFit(budget: nat, buffer: nat, threads: nat)
    requires 0 < buffer <= budget && threads >= 1
    ensures
      var workers := Max(Min(threads, Max(budget / buffer, 1)), 1);
      && 1 <= workers <= threads
      && workers * buffer <= budget
      && (workers == threads || (workers + 1) * buffer > budget)
  {
  }

  lemma CountFits(size: u64, blockSize: nat)
    requires blockSize > 0
    ensures 0 <= BlockCount(size, blockSize) <= size
    ensures BlockCount(size, blockSize) * blockSize >= size
    ensures forall b :: 0 <= b < BlockCount(size, blockSize) ==> b * blockSize < size
  {
    var n := BlockCount(size, blockSize);
    assert size + blockSize - 1 == n * blockSize + (size + blockSize - 1) % blockSize;
    forall b | 0 <= b < n
      ensures b * blockSize < size
    {
      MulMonotone(b + 1, n, blockSize);
      assert (b + 1) * blockSize == b * blockSize + blockSize;
    }
    if n > size {
      MulMonotone(size + 1, n, blockSize);
      assert (size + 1) * blockSize == size * blockSize + blockSize;
      MulMonotone(1, blockSize, size);
    }
  }

  function Start(b: nat, blockSize: nat): nat {
    b * blockSize
  }

  function OwnedEnd(b: nat, blockSize: nat, size: nat): nat {
    Min(Start(b, blockSize) + blockSize, size)
  }

  /** What a worker reads: the owned region and as much overlap as the source still holds. */
  function ReadEnd(b: nat, blockSize: nat, overlap: nat, size: nat): nat {
    Min(OwnedEnd(b, blockSize, size) + overlap, size)
  }

  /** The owned regions tile the source: none is empty, each starts where the one before ends, the first
      at 0 and the last ending at the size. */
  lemma RegionsTile(size: u64, blockSize: nat)
    requires blockSize > 0
    ensures var n := BlockCount(size, blockSize);
      && (n == 0 <==> size == 0)
      && Start(0, blockSize) == 0
      && (forall b :: 0 <= b < n ==> Start(b, blockSize) < OwnedEnd(b, blockSize, size) <= size)
      && (forall b :: 0 <= b < n - 1 ==> OwnedEnd(b, blockSize, size) == Start(b + 1, blockSize))
      && (n > 0 ==> OwnedEnd(n - 1, blockSize, size) == size)
  {
    CountFits(size, blockSize);
    var n := BlockCount(size, blockSize);
    forall b | 0 <= b < n - 1
      ensures OwnedEnd(b, blockSize, size) == Start(b + 1, blockSize)
    {
      assert (b + 1) * blockSize == b * blockSize + blockSize;
      assert (b + 1) * blockSize < size;
    }
    if n > 0 {
      assert n * blockSize == (n - 1) * blockSize + blockSize;
    }
  }

  lemma NextBlock(size: u64, blockSize: nat, overlap: nat, b: nat)
    requires blockSize > 0 && b < BlockCount(size, blockSize)
    ensures Start(b, blockSize) < OwnedEnd(b, blockSize, size) <= ReadEnd(b, blockSize, overlap, size) <= size
    ensures OwnedEnd(b, blockSize, size) == Min(Start(b + 1, blockSize), size)
    ensures ReadEnd(b, blockSize, overlap, size) == Min(OwnedEnd(b, blockSize, size) + overlap, size)
  {
    CountFits(size, blockSize);
    assert (b + 1) * blockSize == b * blockSize + blockSize;
  }

  // ----- naive search

  /** The pattern lies at `at`, ending no later than `limit`. */
  ghost predicate Occurs(s: Source, pattern: seq<byte>, at: nat, limit: nat) {
    && at + |pattern| <= limit
    && forall i :: at <= i < at + |pattern| ==> ByteAt(s, i) == Some(pattern[i - at])
  }

  /** Hits at one offset, for the first `n` patterns in order. */
  ghost function HitsAt(s: Source, patterns: seq<seq<byte>>, n: nat, at: nat, limit: nat): seq<Hit>
    requires n <= |patterns|
  {
    if n == 0 then []
    else HitsAt(s, patterns, n - 1, at, limit) + if Occurs(s, patterns[n - 1], at, limit) then [Hit(at, n - 1)] else []
  }

  /** Naive search: every offset from `from` up to `to`, every pattern at each. */
  ghost function Naive(s: Source, patterns: seq<seq<byte>>, from: nat, to: nat, limit: nat): seq<Hit> {
    if to <= from then []
    else Naive(s, patterns, from, to - 1, limit) + HitsAt(s, patterns, |patterns|, to - 1, limit)
  }

  ghost predicate IsHit(s: Source, patterns: seq<seq<byte>>, limit: nat, h: Hit) {
    h.pattern < |patterns| && Occurs(s, patterns[h.pattern], h.offset, limit)
  }

  predicate Ascending(hits: seq<Hit>) {
    forall i, j :: 0 <= i < j < |hits| ==> Before(hits[i], hits[j])
  }

  lemma {:induction false} HitsAtExact(s: Source, patterns: seq<seq<byte>>, n: nat, at: nat, limit: nat)
    requires n <= |patterns|
    ensures Ascending(HitsAt(s, patterns, n, at, limit))
    ensures forall h :: h in HitsAt(s, patterns, n, at, limit) <==>
              h.offset == at && h.pattern < n && IsHit(s, patterns, limit, h)
  {
    hide Occurs;
    if n > 0 {
      HitsAtExact(s, patterns, n - 1, at, limit);
    }
  }

  /** Naive search reports exactly the occurrences that start in range, each once, in strictly ascending
      (offset, pattern) order. */
  lemma {:induction false} NaiveExact(s: Source, patterns: seq<seq<byte>>, from: nat, to: nat, limit: nat)
    ensures Ascending(Naive(s, patterns, from, to, limit))
    ensures forall h :: h in Naive(s, patterns, from, to, limit) <==>
              from <= h.offset < to && IsHit(s, patterns, limit, h)
  {
    hide IsHit, HitsAt, Ascending;
    if from < to {
      NaiveExact(s, patterns, from, to - 1, limit);
      HitsAtExact(s, patterns, |patterns|, to - 1, limit);
      OnlyPatterns(s, patterns, limit);
      AscendingJoins(Naive(s, patterns, from, to - 1, limit), HitsAt(s, patterns, |patterns|, to - 1, limit));
    } else {
      assert Ascending([]) by { AscendingEmpty(); }
    }
  }

  lemma OnlyPatterns(s: Source, patterns: seq<seq<byte>>, limit: nat)
    ensures forall h :: IsHit(s, patterns, limit, h) ==> h.pattern < |patterns|
  {
  }

  lemma AscendingEmpty()
    ensures Ascending([])
  {
  }

  lemma AscendingJoins(a: seq<Hit>, b: seq<Hit>)
    requires Ascending(a) && Ascending(b)
    requires forall g, h :: g in a && h in b ==> Before(g, h)
    ensures Ascending(a + b)
  {
    forall i, j | 0 <= i < j < |a + b|
      ensures Before((a + b)[i], (a + b)[j])
    {
      if i < |a| <= j {
        assert a[i] in a && b[j - |a|] in b;
      }
    }
  }

  /** Strict order and membership leave no choice of sequence. */
  lemma {:induction false} AscendingUnique(a: seq<Hit>, b: seq<Hit>)
    requires Ascending(a) && Ascending(b)
    requires forall h :: h in a <==> h in b
    ensures a == b
  {
    if a != [] {
      FirstShared(a, b);
    }
    if b != [] {
      FirstShared(b, a);
      assert a[0] == b[0];
      var x, y := a[1..], b[1..];
      forall h
        ensures h in x <==> h in y
      {
        RestMembers(a, h);
        RestMembers(b, h);
      }
      AscendingUnique(x, y);
      assert a == [a[0]] + x && b == [b[0]] + y;
    }
  }

  lemma FirstShared(a: seq<Hit>, b: seq<Hit>)
    requires a != [] && forall h :: h in a ==> h in b
    ensures a[0] in b && b != []
  {
  }

  lemma RestMembers(a: seq<Hit>, h: Hit)
    requires a != [] && Ascending(a)
    ensures h in a[1..] <==> h in a && h != a[0]
  {
  }

  // ----- one block

  /** A match the automaton yields, in buffer coordinates. */
  datatype Match = Match(start: nat, end: nat, pattern: nat)

  predicate Matches(patterns: seq<seq<byte>>, buf: seq<byte>, m: Match) {
    && m.pattern < |patterns|
    && m.start <= m.end <= |buf|
    && buf[m.start..m.end] == patterns[m.pattern]
  }

  predicate NoRepeats<T(==)>(s: seq<T>) {
    forall i, j :: 0 <= i < j < |s| ==> s[i] != s[j]
  }

  /** The automaton's overlapping iteration, by what it yields: every match of every pattern, each once,
      by end position. */
  method FindOverlapping(patterns: seq<seq<byte>>, buf: seq<byte>) returns (found: seq<Match>)
    ensures forall m :: m in found <==> Matches(patterns, buf, m)
    ensures NoRepeats(found)
    ensures forall i, j :: 0 <= i < j < |found| ==> found[i].end <= found[j].end
  {
    found := [];
    var end := 0;
    while end <= |buf|
      invariant 0 <= end <= |buf| + 1
      invariant forall m :: m in found <==> Matches(patterns, buf, m) && m.end < end
      invariant NoRepeats(found)
      invariant forall i, j :: 0 <= i < j < |found| ==> found[i].end <= found[j].end
    {
      var p := 0;
      while p < |patterns|
        invariant 0 <= p <= |patterns|
        invariant forall m :: m in found <==>
          Matches(patterns, buf, m) && (m.end < end || (m.end == end && m.pattern < p))
        invariant NoRepeats(found)
        invariant forall i, j :: 0 <= i < j < |found| ==> found[i].end <= found[j].end
      {
        if |patterns[p]| <= end && buf[end - |patterns[p]|..end] == patterns[p] {
          found := found + [Match(end - |patterns[p]|, end, p)];
        }
        p := p + 1;
      }
      end := end + 1;
    }
  }

  // ----- sorting

  function Insert(h: Hit, s: seq<Hit>): seq<Hit> {
    if s == [] then [h] else if Before(h, s[0]) then [h] + s else [s[0]] + Insert(h, s[1..])
  }

  /** The order `sort_unstable` leaves the hits in. */
  function Sorted(s: seq<Hit>): seq<Hit> {
    if s == [] then [] else Insert(s[0], Sorted(s[1..]))
  }

  lemma {:induction false} InsertKeeps(h: Hit, s: seq<Hit>)
    requires Ascending(s) && h !in s
    ensures Ascending(Insert(h, s))
    ensures forall x :: x in Insert(h, s) <==> x == h || x in s
  {
    if s != [] && !Before(h, s[0]) {
      var rest := s[1..];
      assert s == [s[0]] + rest;
      InsertKeeps(h, rest);
      forall x | x in Insert(h, rest)
        ensures Before(s[0], x)
      {
        RestMembers(s, x);
      }
    }
  }

  lemma {:induction false} SortedKeeps(s: seq<Hit>)
    requires NoRepeats(s)
    ensures Ascending(Sorted(s))
    ensures forall x :: x in Sorted(s) <==> x in s
  {
    if s != [] {
      SortedKeeps(s[1..]);
      InsertKeeps(s[0], Sorted(s[1..]));
    }
  }

  // ----- scanning one block

  /** The match a hit of the block starting at `start` comes from. */
  function MatchOf(patterns: seq<seq<byte>>, start: nat, h: Hit): Match
    requires start <= h.offset && h.pattern < |patterns|
  {
    Match(h.offset - start, h.offset - start + |patterns[h.pattern]|, h.pattern)
  }

  /** The hits a block owns among the matches looked at so far. */
  ghost predicate Collected(hits: seq<Hit>, patterns: seq<seq<byte>>, start: nat, ownedEnd: nat, found: seq<Match>) {
    && NoRepeats(hits)
    && forall h :: h in hits <==>
         h.pattern < |patterns| && start <= h.offset < ownedEnd && MatchOf(patterns, start, h) in found
  }

  lemma MatchIsHit(s: Source, patterns: seq<seq<byte>>, start: nat, buf: seq<byte>, h: Hit)
    requires Readable(s, start, |buf|) && buf == Slice(s, start, |buf|)
    requires start <= h.offset && h.pattern < |patterns|
    ensures Matches(patterns, buf, MatchOf(patterns, start, h)) <==> IsHit(s, patterns, start + |buf|, h)
  {
  }

  method CollectOwned(patterns: seq<seq<byte>>, start: nat, ownedEnd: nat, found: seq<Match>) returns (hits: seq<Hit>)
    requires start <= ownedEnd && NoRepeats(found)
    requires forall m :: m in found ==> m.pattern < |patterns| && m.end == m.start + |patterns[m.pattern]|
    ensures Collected(hits, patterns, start, ownedEnd, found)
  {
    hits := [];
    for k := 0 to |found|
      invariant Collected(hits, patterns, start, ownedEnd, found[..k])
    {
      var m := found[k];
      assert m in found && found[..k + 1] == found[..k] + [m];
      if m.start < ownedEnd - start {
        assert m !in found[..k];
        assert MatchOf(patterns, start, Hit(start + m.start, m.pattern)) == m;
        hits := hits + [Hit(start + m.start, m.pattern)];
      }
    }
    assert found[..|found|] == found;
  }

  /** Bounds under which the block arithmetic, done without checks, stays in 64 bits. */
  predicate Fits(s: Source, blockSize: nat, overlap: nat) {
    s.Size() + blockSize + overlap < U64_LIMIT
  }

  /** One block: the occurrences it owns that end within what it read, in order; it fails exactly when
      some byte of its region or overlap does not resolve. */
  method ScanBlock(s: Source, patterns: seq<seq<byte>>, blockSize: u64, overlap: u64, b: u64)
    returns (r: Result<seq<Hit>, SourceError>)
    requires s.Valid() && blockSize > 0 && Fits(s, blockSize, overlap) && Start(b, blockSize) < s.Size()
    ensures
      var start, owned := Start(b, blockSize), OwnedEnd(b, blockSize, s.Size());
      var end := ReadEnd(b, blockSize, overlap, s.Size());
      && (r.Ok? <==> Readable(s, start, end - start))
      && (r.Ok? ==> r.value == Naive(s, patterns, start, owned, end))
  {
    hide ByteAt, Naive, Collected, Readable, Sorted;
    var start: u64 := b * blockSize;
    var ownedEnd: u64 := Min(start + blockSize, s.Size());
    var readEnd: u64 := Min(ownedEnd + overlap, s.Size());
    var len := readEnd - start;
    var buf := new byte[len];
    var read := ReadExactAt(s, start, buf, 0, len);
    if read.Err? {
      return Err(read.error);
    }
    assert buf[0..len] == buf[..];
    var found := FindOverlapping(patterns, buf[..]);
    var hits := CollectOwned(patterns, start, ownedEnd, found);
    SortedKeeps(hits);
    BlockHits(s, patterns, start, ownedEnd, buf[..], found, hits);
    return Ok(Sorted(hits));
  }

  lemma BlockHits(s: Source, patterns: seq<seq<byte>>, start: nat, ownedEnd: nat, buf: seq<byte>,
                  found: seq<Match>, hits: seq<Hit>)
    requires Readable(s, start, |buf|) && buf == Slice(s, start, |buf|)
    requires forall m :: m in found <==> Matches(patterns, buf, m) && m.end == m.start + |patterns[m.pattern]|
    requires Collected(hits, patterns, start, ownedEnd, found)
    ensures Sorted(hits) == Naive(s, patterns, start, ownedEnd, start + |buf|)
  {
    var limit := start + |buf|;
    NaiveExact(s, patterns, start, ownedEnd, limit);
    SortedKeeps(hits);
    var naive := Naive(s, patterns, start, ownedEnd, limit);
    forall h
      ensures h in Sorted(hits) <==> h in naive
    {
      if h.pattern < |patterns| && start <= h.offset < ownedEnd {
        MatchIsHit(s, patterns, start, buf, h);
      }
    }
    AscendingUnique(Sorted(hits), naive);
  }

  // ----- the whole scan

  /** Hits of blocks `0` to `n`, one after the other. */
  ghost function Blocks(s: Source, patterns: seq<seq<byte>>, blockSize: nat, overlap: nat, n: nat): seq<Hit> {
    if n == 0 then [] else
    var b := n - 1;
    Blocks(s, patterns, blockSize, overlap, b) +
    Naive(s, patterns, Start(b, blockSize), OwnedEnd(b, blockSize, s.Size()), ReadEnd(b, blockSize, overlap, s.Size()))
  }

  method Scan(s: Source, patterns: seq<seq<byte>>, config: Config) returns (r: Result<seq<Hit>, ScanError>)
    requires s.Valid() && Sane(config) && Fits(s, config.blockSize, config.overlap)
    ensures !(NonZero(config) && FittedBlock(config).Some?) ==> r == Err(InvalidConfig)
    ensures NonZero(config) && FittedBlock(config).Some? ==>
      var blockSize := FittedBlock(config).value;
      && blockSize > 0
      && (r.Ok? <==> Readable(s, 0, s.Size()))
      && (r.Ok? ==> r.value == Blocks(s, patterns, blockSize, config.overlap, BlockCount(s.Size(), blockSize)))
  {
    hide ByteAt, Naive, FittedBlock, BlockCount, Start, OwnedEnd, ReadEnd;
    var resolved := Resolve(config, s.Size());
    if resolved.Err? { return Err(InvalidConfig); }
    var plan := resolved.value;
    var hits := [];
    var b := 0;
    WholeSource(s.Size(), plan.blockSize);
    while b < plan.blockCount
      invariant 0 <= b <= plan.blockCount
      invariant hits == Blocks(s, patterns, plan.blockSize, plan.overlap, b)
      invariant Readable(s, 0, Min(Start(b, plan.blockSize), s.Size()))
    {
      NextBlock(s.Size(), plan.blockSize, plan.overlap, b);
      ghost var start, end := Start(b, plan.blockSize), ReadEnd(b, plan.blockSize, plan.overlap, s.Size());
      var block := ScanBlock(s, patterns, plan.blockSize, plan.overlap, b);
      if block.Err? {
        ReadableWithin(s, 0, s.Size(), start, end - start);
        return Err(SourceFailed(block.error));
      }
      ReadableOn(s, start, end);
      hits := hits + block.value;
      b := b + 1;
    }
    return Ok(hits);
  }

  lemma ReadableOn(s: Source, a: nat, b: nat)
    requires a <= b && Readable(s, 0, a) && Readable(s, a, b - a)
    ensures forall c :: 0 <= c <= b ==> Readable(s, 0, c)
  {
  }

  lemma WholeSource(size: u64, blockSize: nat)
    requires blockSize > 0
    ensures Start(0, blockSize) == 0
    ensures Min(Start(BlockCount(size, blockSize), blockSize), size) == size
  {
  }

  // ----- the block scan refines naive search

  /** Longest pattern allowed by an overlap: one byte more than it, as the documentation asks. */
  predicate Covered(patterns: seq<seq<byte>>, overlap: nat) {
    forall p :: p in patterns ==> |p| <= overlap + 1
  }

  lemma {:induction false} NaiveJoins(s: Source, patterns: seq<seq<byte>>, a: nat, b: nat, c: nat, limit: nat)
    requires a <= b <= c
    ensures Naive(s, patterns, a, c, limit) == Naive(s, patterns, a, b, limit) + Naive(s, patterns, b, c, limit)
  {
    hide HitsAt;
    if b < c {
      NaiveJoins(s, patterns, a, b, c - 1, limit);
      var left, middle := Naive(s, patterns, a, b, limit), Naive(s, patterns, b, c - 1, limit);
      var last := HitsAt(s, patterns, |patterns|, c - 1, limit);
      assert left + middle + last == left + (middle + last);
    } else {
      assert Naive(s, patterns, b, c, limit) == [];
    }
  }

  /** An occurrence that starts in an owned region ends within what the block read. */
  lemma OverlapSuffices(s: Source, patterns: seq<seq<byte>>, from: nat, to: nat, overlap: nat)
    requires Covered(patterns, overlap) && to <= s.Size()
    ensures Naive(s, patterns, from, to, Min(to + overlap, s.Size())) == Naive(s, patterns, from, to, s.Size())
  {
    var limit := Min(to + overlap, s.Size());
    NaiveExact(s, patterns, from, to, limit);
    NaiveExact(s, patterns, from, to, s.Size());
    hide Naive;
    forall h: Hit
      ensures from <= h.offset < to && IsHit(s, patterns, limit, h) <==>
              from <= h.offset < to && IsHit(s, patterns, s.Size(), h)
    {
      if h.pattern < |patterns| {
        assert patterns[h.pattern] in patterns;
      }
    }
    AscendingUnique(Naive(s, patterns, from, to, limit), Naive(s, patterns, from, to, s.Size()));
  }

  lemma {:induction false} PrefixScan(s: Source, patterns: seq<seq<byte>>, blockSize: nat, overlap: nat, n: nat)
    requires blockSize > 0 && Covered(patterns, overlap) && s.Size() < U64_LIMIT && n <= BlockCount(s.Size(), blockSize)
    ensures Blocks(s, patterns, blockSize, overlap, n) ==
            Naive(s, patterns, 0, Min(Start(n, blockSize), s.Size()), s.Size())
  {
    hide Naive, Start, OwnedEnd, ReadEnd, BlockCount, Covered;
    if n == 0 {
      WholeSource(s.Size(), blockSize);
      NaiveNothing(s, patterns, s.Size());
    } else {
      var b := n - 1;
      PrefixScan(s, patterns, blockSize, overlap, b);
      NextBlock(s.Size(), blockSize, overlap, b);
      var start, owned := Start(b, blockSize), OwnedEnd(b, blockSize, s.Size());
      OverlapSuffices(s, patterns, start, owned, overlap);
      NaiveJoins(s, patterns, 0, start, owned, s.Size());
    }
  }

  lemma NaiveNothing(s: Source, patterns: seq<seq<byte>>, limit: nat)
    ensures Naive(s, patterns, 0, 0, limit) == []
  {
  }

  /** The block scan reports what naive search of the whole source reports, whatever the block size and
      overlap, as long as the overlap covers the patterns. */
  lemma ScanIsNaive(s: Source, patterns: seq<seq<byte>>, blockSize: nat, overlap: nat)
    requires blockSize > 0 && Covered(patterns, overlap) && s.Size() < U64_LIMIT
    ensures Blocks(s, patterns, blockSize, overlap, BlockCount(s.Size(), blockSize)) ==
            Naive(s, patterns, 0, s.Size(), s.Size())
  {
    WholeSource(s.Size(), blockSize);
    PrefixScan(s, patterns, blockSize, overlap, BlockCount(s.Size(), blockSize));
  }

  /** A source on which a pattern longer than the overlap allows starts on the last byte of a block. */
  function Straddling(pattern: seq<byte>, blockSize: nat): Source
    requires blockSize > 0
  {
    Raw(seq(blockSize - 1, i => 0) + pattern)
  }

  lemma StraddlingMissed(patterns: seq<seq<byte>>, k: nat, blockSize: nat, overlap: nat)
    requires blockSize > 0 && k < |patterns| && |patterns[k]| > overlap + 1
    requires blockSize + |patterns[k]| < U64_LIMIT
    ensures var s := Straddling(patterns[k], blockSize);
      && Hit(blockSize - 1, k) in Naive(s, patterns, 0, s.Size(), s.Size())
      && Hit(blockSize - 1, k) !in Blocks(s, patterns, blockSize, overlap, BlockCount(s.Size(), blockSize))
  {
    var s := Straddling(patterns[k], blockSize);
    var h := Hit(blockSize - 1, k);
    assert Occurs(s, patterns[k], blockSize - 1, s.Size());
    NaiveExact(s, patterns, 0, s.Size(), s.Size());
    CountFits(s.Size(), blockSize);
    NotInBlocks(s, patterns, blockSize, overlap, BlockCount(s.Size(), blockSize), h);
  }

  lemma {:induction false} NotInBlocks(s: Source, patterns: seq<seq<byte>>, blockSize: nat, overlap: nat, n: nat,
                                       h: Hit)
    requires blockSize > 0 && h.offset == blockSize - 1 && h.pattern < |patterns|
    requires |patterns[h.pattern]| > overlap + 1
    ensures h !in Blocks(s, patterns, blockSize, overlap, n)
  {
    hide Naive, Occurs;
    if n > 0 {
      var b := n - 1;
      NotInBlocks(s, patterns, blockSize, overlap, b, h);
      var owned, end := OwnedEnd(b, blockSize, s.Size()), ReadEnd(b, blockSize, overlap, s.Size());
      NaiveExact(s, patterns, Start(b, blockSize), owned, end);
      if b > 0 {
        MulMonotone(1, b, blockSize);
      }
      TooLong(s, patterns, end, h, blockSize + overlap);
    }
  }

  lemma TooLong(s: Source, patterns: seq<seq<byte>>, limit: nat, h: Hit, end: nat)
    requires h.pattern < |patterns| && h.offset + |patterns[h.pattern]| > end
    ensures limit <= end ==> !IsHit(s, patterns, limit, h)
  {
  }

  /** The documented bound is exact: a layout finds everything naive search finds on every source if and
      only if its overlap is at least the longest pattern minus one. */
  lemma OverlapBoundExact(patterns: seq<seq<byte>>, blockSize: nat, overlap: nat)
    requires blockSize > 0 && forall p :: p in patterns ==> blockSize + |p| < U64_LIMIT
    ensures Covered(patterns, overlap) <==>
      forall s: Source | s.Size() < U64_LIMIT ::
        Blocks(s, patterns, blockSize, overlap, BlockCount(s.Size(), blockSize)) ==
        Naive(s, patterns, 0, s.Size(), s.Size())
  {
    if Covered(patterns, overlap) {
      forall s: Source | s.Size() < U64_LIMIT
        ensures Blocks(s, patterns, blockSize, overlap, BlockCount(s.Size(), blockSize)) ==
                Naive(s, patterns, 0, s.Size(), s.Size())
      {
        ScanIsNaive(s, patterns, blockSize, overlap);
      }
    } else {
      var p :| p in patterns && |p| > overlap + 1;
      var k :| 0 <= k < |patterns| && patterns[k] == p;
      StraddlingMissed(patterns, k, blockSize, overlap);
      assert Straddling(p, blockSize).Size() < U64_LIMIT;
    }
  }
}
