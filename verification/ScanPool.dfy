/** The worker pool of a scan as a step system: workers claim blocks in any order, hold one buffer each
    while they read and search, and write their result to the block's slot. */
module ScanPool {
  import opened Bytes
  import opened Sources
  import opened Scan

  /** The work of one scan: what each block yields (None when its read fails), the size of the buffer it
      needs, and the number of workers. */
  datatype Job = Job(outcomes: seq<Option<seq<Hit>>>, buffers: seq<nat>, workers: nat)
  {
    predicate Valid() {
      |buffers| == |outcomes| && workers > 0
    }
  }

  datatype Worker =
    | Idle
    | Claimed(block: nat)
    | Reading(block: nat)
    | Searched(block: nat)
    | Returning(block: nat)
  {
    /** Steps this worker still takes before it is idle. */
    function Remaining(): nat {
      match this
      case Idle => 0
      case Claimed(_) => 4
      case Reading(_) => 3
      case Searched(_) => 2
      case Returning(_) => 1
    }
  }

  datatype Pool = Pool(unclaimed: set<nat>, workers: seq<Worker>, slots: map<nat, Option<seq<Hit>>>)

  function Upto(n: nat): (r: set<nat>)
    ensures forall b: nat :: b in r <==> b < n
    ensures |r| == n
  {
    if n == 0 then {} else
    var r := Upto(n - 1);
    assert n - 1 !in r;
    r + {n - 1}
  }

  function Initial(job: Job): Pool {
    Pool(Upto(|job.outcomes|), seq(job.workers, _ => Idle), map[])
  }

  datatype Action = Claim(w: nat, block: nat) | Allocate(w: nat) | Search(w: nat) | Release(w: nat) | Publish(w: nat)

  predicate Enabled(job: Job, p: Pool, a: Action) {
    && a.w < |p.workers|
    && match a
       case Claim(w, block) => p.workers[w].Idle? && block in p.unclaimed
       case Allocate(w) => p.workers[w].Claimed?
       case Search(w) => p.workers[w].Reading?
       case Release(w) => p.workers[w].Searched?
       case Publish(w) => p.workers[w].Returning? && p.workers[w].block < |job.outcomes|
  }

  function Apply(job: Job, p: Pool, a: Action): Pool
    requires Enabled(job, p, a)
  {
    var worker := p.workers[a.w];
    match a
    case Claim(w, block) => p.(unclaimed := p.unclaimed - {block}, workers := p.workers[w := Claimed(block)])
    case Allocate(w) => p.(workers := p.workers[w := Reading(worker.block)])
    case Search(w) => p.(workers := p.workers[w := Searched(worker.block)])
    case Release(w) => p.(workers := p.workers[w := Returning(worker.block)])
    case Publish(w) => p.(workers := p.workers[w := Idle], slots := p.slots[worker.block := job.outcomes[worker.block]])
  }

  /** Bytes a worker's buffer takes: nothing before it is allocated or after it is released. */
  function Held(job: Job, worker: Worker): nat {
    if (worker.Reading? || worker.Searched?) && worker.block < |job.buffers| then job.buffers[worker.block] else 0
  }

  function Memory(job: Job, workers: seq<Worker>): nat {
    if workers == [] then 0 else Held(job, workers[0]) + Memory(job, workers[1..])
  }

  function Work(workers: seq<Worker>): nat {
    if workers == [] then 0 else workers[0].Remaining() + Work(workers[1..])
  }

  /** Steps left at most: five for each block nobody claimed, and what the workers are in the middle of. */
  function Measure(p: Pool): nat {
    5 * |p.unclaimed| + Work(p.workers)
  }

  ghost predicate InFlight(p: Pool, b: nat) {
    exists w :: 0 <= w < |p.workers| && !p.workers[w].Idle? && p.workers[w].block == b
  }

  /** Every block is in exactly one place: unclaimed, with exactly one worker, or in its slot, where it
      has the outcome any schedule would give it. */
  ghost predicate Invariant(job: Job, p: Pool) {
    && job.Valid()
    && |p.workers| == job.workers
    && (forall b :: b in p.unclaimed ==> b < |job.outcomes| && b !in p.slots && !InFlight(p, b))
    && (forall w :: 0 <= w < |p.workers| && !p.workers[w].Idle? ==>
          p.workers[w].block < |job.outcomes| && p.workers[w].block !in p.slots && p.workers[w].block !in p.unclaimed)
    && (forall v, w :: 0 <= v < w < |p.workers| && !p.workers[v].Idle? && !p.workers[w].Idle? ==>
          p.workers[v].block != p.workers[w].block)
    && (forall b :: b in p.slots ==> b < |job.outcomes| && p.slots[b] == job.outcomes[b])
    && (forall b :: 0 <= b < |job.outcomes| ==> b in p.unclaimed || InFlight(p, b) || b in p.slots)
  }

  /** Collecting stops early once a slot holds a failure; otherwise it waits for every block. */
  ghost predicate Finished(job: Job, p: Pool) {
    && (forall w :: 0 <= w < |p.workers| ==> p.workers[w].Idle?)
    && (p.unclaimed == {} || exists b :: b in p.slots && p.slots[b] == None)
  }

  /** Block results in block order; None if any block failed. */
  function Collect(outcomes: seq<Option<seq<Hit>>>): Option<seq<Hit>> {
    if outcomes == [] then Some([]) else
    match (Collect(outcomes[..|outcomes| - 1]), outcomes[|outcomes| - 1])
    case (Some(before), Some(last)) => Some(before + last)
    case _ => None
  }

  /** What the caller gets from the slots: a failure if one is there, else the slots in block order. */
  ghost function Returned(job: Job, p: Pool): Option<seq<Hit>>
    requires Invariant(job, p) && Finished(job, p)
  {
    if exists b :: b in p.slots && p.slots[b] == None then None
    else Collect(SlotsInOrder(job, p))
  }

  ghost function SlotsInOrder(job: Job, p: Pool): (r: seq<Option<seq<Hit>>>)
    requires Invariant(job, p) && Finished(job, p) && !(exists b :: b in p.slots && p.slots[b] == None)
    ensures r == job.outcomes
  {
    seq(|job.outcomes|, b requires 0 <= b < |job.outcomes| =>
      assert !InFlight(p, b); p.slots[b])
  }

  // ----- runs

  /** A schedule: actions taken one after the other. */
  ghost predicate Runs(job: Job, p: Pool, schedule: seq<Action>)
    decreases |schedule|
  {
    schedule == [] || (Enabled(job, p, schedule[0]) && Runs(job, Apply(job, p, schedule[0]), schedule[1..]))
  }

  ghost function After(job: Job, p: Pool, schedule: seq<Action>): Pool
    requires Runs(job, p, schedule)
    decreases |schedule|
  {
    if schedule == [] then p else After(job, Apply(job, p, schedule[0]), schedule[1..])
  }

  lemma InitialInvariant(job: Job)
    requires job.Valid()
    ensures Invariant(job, Initial(job))
  {
  }

  lemma StepKeeps(job: Job, p: Pool, a: Action)
    requires Invariant(job, p) && Enabled(job, p, a)
    ensures Invariant(job, Apply(job, p, a))
  {
    if a.Claim? {
      ClaimKeeps(job, p, a.w, a.block);
    } else if a.Publish? {
      PublishKeeps(job, p, a.w);
    } else {
      MoveKeeps(job, p, a.w, Apply(job, p, a).workers[a.w]);
    }
  }

  lemma ClaimKeeps(job: Job, p: Pool, w: nat, block: nat)
    requires Invariant(job, p) && Enabled(job, p, Claim(w, block))
    ensures Invariant(job, Apply(job, p, Claim(w, block)))
  {
    var q := Apply(job, p, Claim(w, block));
    FlightMoves(p, q, w);
    assert q.workers[w].block == block && InFlight(q, block);
  }

  /** A step within one block: the worker keeps it. */
  lemma MoveKeeps(job: Job, p: Pool, w: nat, v: Worker)
    requires Invariant(job, p) && w < |p.workers| && !p.workers[w].Idle? && !v.Idle? && v.block == p.workers[w].block
    ensures Invariant(job, p.(workers := p.workers[w := v]))
  {
    FlightMoves(p, p.(workers := p.workers[w := v]), w);
  }

  lemma PublishKeeps(job: Job, p: Pool, w: nat)
    requires Invariant(job, p) && Enabled(job, p, Publish(w))
    ensures Invariant(job, Apply(job, p, Publish(w)))
  {
    FlightMoves(p, Apply(job, p, Publish(w)), w);
  }

  /** When only worker `w` changes, the other blocks in flight stay in flight and none but its new one
      joins them. */
  lemma FlightMoves(p: Pool, q: Pool, w: nat)
    requires w < |p.workers| == |q.workers| && q.workers == p.workers[w := q.workers[w]]
    ensures forall b :: InFlight(p, b) && !(!p.workers[w].Idle? && p.workers[w].block == b) ==> InFlight(q, b)
    ensures forall b :: InFlight(q, b) ==> InFlight(p, b) || (!q.workers[w].Idle? && q.workers[w].block == b)
    ensures !q.workers[w].Idle? ==> InFlight(q, q.workers[w].block)
  {
    forall b | InFlight(p, b) && !(!p.workers[w].Idle? && p.workers[w].block == b)
      ensures InFlight(q, b)
    {
      var v :| 0 <= v < |p.workers| && !p.workers[v].Idle? && p.workers[v].block == b;
      assert q.workers[v].block == b;
    }
    forall b | InFlight(q, b)
      ensures InFlight(p, b) || (!q.workers[w].Idle? && q.workers[w].block == b)
    {
      var v :| 0 <= v < |q.workers| && !q.workers[v].Idle? && q.workers[v].block == b;
      assert v != w ==> p.workers[v].block == b;
    }
  }

  lemma {:induction false} WorkUpdate(workers: seq<Worker>, w: nat, v: Worker)
    requires w < |workers|
    ensures Work(workers[w := v]) == Work(workers) - workers[w].Remaining() + v.Remaining()
  {
    if w == 0 {
      assert workers[w := v][1..] == workers[1..];
    } else {
      assert workers[w := v][1..] == workers[1..][w - 1 := v];
      WorkUpdate(workers[1..], w - 1, v);
    }
  }

  /** Every step leaves less to do. */
  lemma StepDecreases(job: Job, p: Pool, a: Action)
    requires Enabled(job, p, a)
    ensures Measure(Apply(job, p, a)) < Measure(p)
  {
    WorkUpdate(p.workers, a.w, Apply(job, p, a).workers[a.w]);
  }

  lemma {:induction false} MemoryUpdate(job: Job, workers: seq<Worker>, w: nat, v: Worker)
    requires w < |workers|
    ensures Memory(job, workers[w := v]) == Memory(job, workers) - Held(job, workers[w]) + Held(job, v)
  {
    if w == 0 {
      assert workers[w := v][1..] == workers[1..];
    } else {
      assert workers[w := v][1..] == workers[1..][w - 1 := v];
      MemoryUpdate(job, workers[1..], w - 1, v);
    }
  }

  /** Memory is what is allocated and not yet released: allocating adds the block's whole buffer, releasing
      takes it away again, and no other step changes it. */
  lemma MemorySteps(job: Job, p: Pool, a: Action)
    requires Invariant(job, p) && Enabled(job, p, a)
    ensures
      var before, after := Memory(job, p.workers), Memory(job, Apply(job, p, a).workers);
      match a
      case Allocate(w) => after == before + job.buffers[p.workers[w].block]
      case Release(w) => before == after + job.buffers[p.workers[w].block]
      case _ => after == before
  {
    MemoryUpdate(job, p.workers, a.w, Apply(job, p, a).workers[a.w]);
  }

  lemma {:induction false} MemoryBounded(job: Job, workers: seq<Worker>, limit: nat)
    requires forall b :: 0 <= b < |job.buffers| ==> job.buffers[b] <= limit
    ensures Memory(job, workers) <= |workers| * limit
  {
    if workers != [] {
      MemoryBounded(job, workers[1..], limit);
      assert |workers| * limit == limit + |workers[1..]| * limit;
    }
  }

  lemma {:induction false} RunKeeps(job: Job, p: Pool, schedule: seq<Action>)
    requires Invariant(job, p) && Runs(job, p, schedule)
    ensures Invariant(job, After(job, p, schedule))
    ensures |schedule| + Measure(After(job, p, schedule)) <= Measure(p)
    decreases |schedule|
  {
    if schedule != [] {
      StepKeeps(job, p, schedule[0]);
      StepDecreases(job, p, schedule[0]);
      RunKeeps(job, Apply(job, p, schedule[0]), schedule[1..]);
    }
  }

  /** A pool that has not finished can always take another step. */
  lemma NeverStuck(job: Job, p: Pool)
    requires Invariant(job, p) && !Finished(job, p)
    ensures exists a :: Enabled(job, p, a)
  {
    if w :| 0 <= w < |p.workers| && !p.workers[w].Idle? {
      var worker := p.workers[w];
      assert Enabled(job, p, if worker.Claimed? then Allocate(w) else if worker.Reading? then Search(w)
                             else if worker.Searched? then Release(w) else Publish(w));
    } else {
      var b :| b in p.unclaimed;
      assert Enabled(job, p, Claim(0, b));
    }
  }

  lemma {:induction false} CollectFails(outcomes: seq<Option<seq<Hit>>>, b: nat)
    requires b < |outcomes| && outcomes[b] == None
    ensures Collect(outcomes) == None
  {
    if b < |outcomes| - 1 {
      CollectFails(outcomes[..|outcomes| - 1], b);
    }
  }

  /** Whatever the schedule, a finished run returns the blocks' results in block order, or a failure
      exactly when some block fails. */
  lemma ScheduleIndependent(job: Job, schedule: seq<Action>)
    requires job.Valid() && Runs(job, Initial(job), schedule)
    requires Finished(job, After(job, Initial(job), schedule))
    ensures Invariant(job, After(job, Initial(job), schedule))
    ensures Returned(job, After(job, Initial(job), schedule)) == Collect(job.outcomes)
  {
    InitialInvariant(job);
    RunKeeps(job, Initial(job), schedule);
    var p := After(job, Initial(job), schedule);
    if b :| b in p.slots && p.slots[b] == None {
      CollectFails(job.outcomes, b);
    }
  }

  // ----- the scan as a job

  /** What block `b` of a layout yields, to whichever worker takes it. */
  ghost function BlockOutcome(s: Source, patterns: seq<seq<byte>>, blockSize: nat, overlap: nat, b: nat)
    : Option<seq<Hit>>
  {
    var start, end := Start(b, blockSize), ReadEnd(b, blockSize, overlap, s.Size());
    if start <= end && Readable(s, start, end - start)
    then Some(Naive(s, patterns, start, OwnedEnd(b, blockSize, s.Size()), end)) else None
  }

  function BufferSize(b: nat, blockSize: nat, overlap: nat, size: nat): nat {
    var start, end := Start(b, blockSize), ReadEnd(b, blockSize, overlap, size);
    if start <= end then end - start else 0
  }

  ghost function ScanJob(s: Source, patterns: seq<seq<byte>>, plan: Plan): Job {
    Job(seq(plan.blockCount, b requires 0 <= b => BlockOutcome(s, patterns, plan.blockSize, plan.overlap, b)),
        seq(plan.blockCount, b requires 0 <= b => BufferSize(b, plan.blockSize, plan.overlap, s.Size())),
        plan.workers)
  }

  /** What the block scan computes: nothing but the naive search of a source that can be read in full. */
  ghost function Expected(s: Source, patterns: seq<seq<byte>>): Option<seq<Hit>> {
    if Readable(s, 0, s.Size()) then Some(Naive(s, patterns, 0, s.Size(), s.Size())) else None
  }

  /** How far into the source the first `n` blocks read. */
  function Reach(n: nat, blockSize: nat, overlap: nat, size: nat): nat {
    if n == 0 then 0 else ReadEnd(n - 1, blockSize, overlap, size)
  }

  lemma ReachGrows(size: u64, blockSize: nat, overlap: nat, b: nat)
    requires blockSize > 0 && b < BlockCount(size, blockSize)
    ensures Start(b, blockSize) <= Reach(b, blockSize, overlap, size) <= Reach(b + 1, blockSize, overlap, size)
    ensures Reach(b + 1, blockSize, overlap, size) == ReadEnd(b, blockSize, overlap, size)
  {
    NextBlock(size, blockSize, overlap, b);
    if b > 0 {
      NextBlock(size, blockSize, overlap, b - 1);
    }
  }

  lemma {:induction false} CollectBlocks(s: Source, patterns: seq<seq<byte>>, blockSize: nat, overlap: nat, n: nat,
                                         outcomes: seq<Option<seq<Hit>>>)
    requires blockSize > 0 && s.Size() < U64_LIMIT && n == |outcomes| <= BlockCount(s.Size(), blockSize)
    requires forall b :: 0 <= b < n ==> outcomes[b] == BlockOutcome(s, patterns, blockSize, overlap, b)
    ensures Collect(outcomes) ==
            if Readable(s, 0, Reach(n, blockSize, overlap, s.Size()))
            then Some(Blocks(s, patterns, blockSize, overlap, n)) else None
  {
    hide ByteAt, Naive, Start, OwnedEnd, ReadEnd, BlockCount, Reach;
    if n == 0 {
      assert Readable(s, 0, Reach(0, blockSize, overlap, s.Size())) by { NoReach(blockSize, overlap, s.Size()); }
    } else {
      var b := n - 1;
      CollectBlocks(s, patterns, blockSize, overlap, b, outcomes[..b]);
      ReachGrows(s.Size(), blockSize, overlap, b);
      BlockReadable(s, Start(b, blockSize), Reach(b, blockSize, overlap, s.Size()),
                    Reach(n, blockSize, overlap, s.Size()));
    }
  }

  lemma NoReach(blockSize: nat, overlap: nat, size: nat)
    ensures Reach(0, blockSize, overlap, size) == 0
  {
  }

  lemma BlockReadable(s: Source, a: nat, b: nat, c: nat)
    requires a <= b <= c
    ensures Readable(s, 0, c) <==> Readable(s, 0, b) && Readable(s, a, c - a)
  {
  }

  /** Every finished run of a plan's pool, with any number of workers in any order, returns what naive
      search of the whole source returns, or fails exactly when some byte of the source does not
      resolve; it gets there in at most five steps a block. */
  lemma AnySchedule(s: Source, patterns: seq<seq<byte>>, config: Config, plan: Plan, schedule: seq<Action>)
    requires s.Size() < U64_LIMIT && Sound(config, s.Size(), plan) && Covered(patterns, plan.overlap)
    requires Runs(ScanJob(s, patterns, plan), Initial(ScanJob(s, patterns, plan)), schedule)
    ensures |schedule| <= 5 * plan.blockCount
    ensures
      var job := ScanJob(s, patterns, plan);
      var end := After(job, Initial(job), schedule);
      Finished(job, end) ==> Invariant(job, end) && Returned(job, end) == Expected(s, patterns)
  {
    var job := ScanJob(s, patterns, plan);
    var end := After(job, Initial(job), schedule);
    InitialInvariant(job);
    RunKeeps(job, Initial(job), schedule);
    IdleWork(job.workers);
    if Finished(job, end) {
      ScheduleIndependent(job, schedule);
      JobCollects(s, patterns, plan.blockSize, plan.overlap, job.outcomes);
    }
  }

  lemma JobCollects(s: Source, patterns: seq<seq<byte>>, blockSize: nat, overlap: nat, outcomes: seq<Option<seq<Hit>>>)
    requires blockSize > 0 && s.Size() < U64_LIMIT && |outcomes| == BlockCount(s.Size(), blockSize)
    requires forall b :: 0 <= b < |outcomes| ==> outcomes[b] == BlockOutcome(s, patterns, blockSize, overlap, b)
    requires Covered(patterns, overlap)
    ensures Collect(outcomes) == Expected(s, patterns)
  {
    hide Naive, ByteAt, Start, BlockOutcome, Covered, BlockCount, Collect, Blocks, Readable, OwnedEnd;
    CollectBlocks(s, patterns, blockSize, overlap, |outcomes|, outcomes);
    RegionsTile(s.Size(), blockSize);
    ScanIsNaive(s, patterns, blockSize, overlap);
  }

  lemma {:induction false} IdleWork(n: nat)
    ensures Work(seq(n, _ => Idle)) == 0
  {
    if n > 0 {
      IdleWork(n - 1);
      assert seq(n, _ => Idle)[1..] == seq(n - 1, _ => Idle);
    }
  }

  /** At every moment of every run, the buffers the workers hold fit the memory budget together. */
  lemma MemoryWithinBudget(s: Source, patterns: seq<seq<byte>>, config: Config, plan: Plan, schedule: seq<Action>)
    requires Sound(config, s.Size(), plan)
    requires Runs(ScanJob(s, patterns, plan), Initial(ScanJob(s, patterns, plan)), schedule)
    ensures
      var job := ScanJob(s, patterns, plan);
      Memory(job, After(job, Initial(job), schedule).workers) <= config.memoryBudget
  {
    hide BlockOutcome, Start, ReadEnd, Invariant, Apply, Enabled;
    var job := ScanJob(s, patterns, plan);
    InitialInvariant(job);
    RunKeeps(job, Initial(job), schedule);
    WorkersKept(job, After(job, Initial(job), schedule));
    BuffersFit(plan, s.Size());
    MemoryBounded(job, After(job, Initial(job), schedule).workers, plan.blockSize + plan.overlap);
  }

  /** A buffer has room for exactly what its worker reads: the block and the overlap, cut at the end of the
      source. */
  lemma BufferIsRead(b: nat, blockSize: nat, overlap: nat, size: u64)
    requires blockSize > 0 && b < BlockCount(size, blockSize)
    ensures BufferSize(b, blockSize, overlap, size) == Min(blockSize + overlap, size - b * blockSize)
  {
    NextBlock(size, blockSize, overlap, b);
  }

  lemma WorkersKept(job: Job, p: Pool)
    requires Invariant(job, p)
    ensures |p.workers| == job.workers
  {
  }

  lemma BuffersFit(plan: Plan, size: nat)
    ensures forall b :: 0 <= b < plan.blockCount ==>
      BufferSize(b, plan.blockSize, plan.overlap, size) <= plan.blockSize + plan.overlap
  {
  }
}
