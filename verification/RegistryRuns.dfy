/** Concurrent dispatch: hits processed by many threads, each counter update a separate atomic step. */
module RegistryRuns {
  import opened Registries

  /** What dispatching one hit will do: nothing for an unknown pattern id, otherwise its owner and verdict. */
  datatype Verdict = Refused | Emits(count: nat)

  datatype Task = Stray | Owned(owner: nat, verdict: Verdict)

  /** How far a task's counter updates have got. */
  datatype Phase = Waiting | Seen | Approved | Done

  datatype State = State(phases: seq<Phase>, counters: seq<Counters>)

  ghost predicate WellPosed(tasks: seq<Task>, extractors: nat) {
    forall t :: 0 <= t < |tasks| && tasks[t].Owned? ==> tasks[t].owner < extractors
  }

  function Start(tasks: seq<Task>, extractors: nat): State {
    State(seq(|tasks|, _ => Waiting), seq(extractors, _ => ZERO))
  }

  predicate Enabled(tasks: seq<Task>, st: State, t: nat) {
    t < |tasks| == |st.phases| && !st.phases[t].Done?
    && (tasks[t].Owned? ==> tasks[t].owner < |st.counters|)
  }

  /** The next atomic step of task `t`. */
  function Step(tasks: seq<Task>, st: State, t: nat): (r: State)
    requires Enabled(tasks, st, t)
    ensures |r.counters| == |st.counters| && |r.phases| == |st.phases|
  {
    match tasks[t]
    case Stray => st.(phases := st.phases[t := Done])
    case Owned(o, verdict) =>
      var c := st.counters[o];
      match st.phases[t]
      case Waiting => State(st.phases[t := Seen], st.counters[o := c.(seen := c.seen + 1)])
      case Seen =>
        if verdict.Refused? then State(st.phases[t := Done], st.counters[o := c.(rejected := c.rejected + 1)])
        else State(st.phases[t := Approved], st.counters[o := c.(accepted := c.accepted + 1)])
      case Approved =>
        State(st.phases[t := Done],
              st.counters[o := c.(emitted := c.emitted + if verdict.Emits? then verdict.count else 0)])
  }

  /** What a task in a phase has added to its owner's counters. */
  function Added(task: Task, phase: Phase): Counters {
    if task.Stray? || phase.Waiting? then ZERO else
    match task.verdict
    case Refused => Counters(1, 0, if phase.Seen? then 0 else 1, 0)
    case Emits(count) => Counters(1, if phase.Seen? then 0 else 1, 0, if phase.Done? then count else 0)
  }

  function AddedTo(task: Task, phase: Phase, e: nat): Counters {
    if task.Owned? && task.owner == e then Added(task, phase) else ZERO
  }

  function Tally(tasks: seq<Task>, phases: seq<Phase>, e: nat): Counters
    requires |tasks| == |phases|
  {
    if tasks == [] then ZERO else AddedTo(tasks[0], phases[0], e).Plus(Tally(tasks[1..], phases[1..], e))
  }

  /** Phases a task can be in: only an accepted one waits to count what it emitted. */
  ghost predicate Sensible(task: Task, phase: Phase) {
    && (task.Stray? ==> phase.Waiting? || phase.Done?)
    && (phase.Approved? ==> task.Owned? && task.verdict.Emits?)
  }

  ghost predicate Invariant(tasks: seq<Task>, extractors: nat, st: State) {
    && |st.phases| == |tasks| && |st.counters| == extractors && WellPosed(tasks, extractors)
    && (forall t :: 0 <= t < |tasks| ==> Sensible(tasks[t], st.phases[t]))
    && (forall e :: 0 <= e < extractors ==> st.counters[e] == Tally(tasks, st.phases, e))
  }

  ghost predicate Runs(tasks: seq<Task>, st: State, schedule: seq<nat>)
    decreases |schedule|
  {
    schedule == [] || (Enabled(tasks, st, schedule[0]) && Runs(tasks, Step(tasks, st, schedule[0]), schedule[1..]))
  }

  ghost function After(tasks: seq<Task>, st: State, schedule: seq<nat>): (r: State)
    requires Runs(tasks, st, schedule)
    ensures |r.counters| == |st.counters| && |r.phases| == |st.phases|
    decreases |schedule|
  {
    if schedule == [] then st else After(tasks, Step(tasks, st, schedule[0]), schedule[1..])
  }

  lemma {:induction false} TallyMoves(tasks: seq<Task>, phases: seq<Phase>, t: nat, phase: Phase, e: nat)
    requires |tasks| == |phases| && t < |tasks|
    ensures Tally(tasks, phases[t := phase], e).Plus(AddedTo(tasks[t], phases[t], e)) ==
            Tally(tasks, phases, e).Plus(AddedTo(tasks[t], phase, e))
  {
    if t == 0 {
      assert phases[t := phase][1..] == phases[1..];
    } else {
      assert phases[t := phase][1..] == phases[1..][t - 1 := phase];
      TallyMoves(tasks[1..], phases[1..], t - 1, phase, e);
    }
  }

  /** A step adds to every extractor what the new phase of its task has over the old. */
  lemma StepAdds(tasks: seq<Task>, extractors: nat, st: State, t: nat, e: nat)
    requires Invariant(tasks, extractors, st) && Enabled(tasks, st, t) && e < extractors
    ensures
      var next := Step(tasks, st, t);
      next.counters[e].Plus(AddedTo(tasks[t], st.phases[t], e)) ==
      st.counters[e].Plus(AddedTo(tasks[t], next.phases[t], e))
  {
    hide Tally;
    assert Sensible(tasks[t], st.phases[t]);
  }

  lemma StepKeeps(tasks: seq<Task>, extractors: nat, st: State, t: nat)
    requires Invariant(tasks, extractors, st) && Enabled(tasks, st, t)
    ensures Invariant(tasks, extractors, Step(tasks, st, t))
  {
    hide Step, AddedTo, Tally;
    var next := Step(tasks, st, t);
    StepPhase(tasks, extractors, st, t);
    forall e | 0 <= e < extractors
      ensures next.counters[e] == Tally(tasks, next.phases, e)
    {
      StepAdds(tasks, extractors, st, t, e);
      TallyMoves(tasks, st.phases, t, next.phases[t], e);
    }
  }

  lemma StepPhase(tasks: seq<Task>, extractors: nat, st: State, t: nat)
    requires Invariant(tasks, extractors, st) && Enabled(tasks, st, t)
    ensures var next := Step(tasks, st, t);
      next.phases == st.phases[t := next.phases[t]] && Sensible(tasks[t], next.phases[t])
  {
    hide Tally;
    assert Sensible(tasks[t], st.phases[t]);
  }

  lemma {:induction false} TallyStart(tasks: seq<Task>, phases: seq<Phase>, e: nat)
    requires |tasks| == |phases| && forall t :: 0 <= t < |phases| ==> phases[t] == Waiting
    ensures Tally(tasks, phases, e) == ZERO
  {
    if tasks != [] {
      assert phases[0] == Waiting && AddedTo(tasks[0], phases[0], e) == ZERO;
      hide AddedTo;
      TallyStart(tasks[1..], phases[1..], e);
    }
  }

  lemma {:induction false} RunKeeps(tasks: seq<Task>, extractors: nat, st: State, schedule: seq<nat>)
    requires Invariant(tasks, extractors, st) && Runs(tasks, st, schedule)
    ensures Invariant(tasks, extractors, After(tasks, st, schedule))
    decreases |schedule|
  {
    if schedule != [] {
      StepKeeps(tasks, extractors, st, schedule[0]);
      RunKeeps(tasks, extractors, Step(tasks, st, schedule[0]), schedule[1..]);
    }
  }

  /** Hits of extractor `e` that were counted as seen and have no verdict counted yet. */
  function InFlight(tasks: seq<Task>, phases: seq<Phase>, e: nat): nat
    requires |tasks| == |phases|
  {
    if tasks == [] then 0 else
    (if tasks[0].Owned? && tasks[0].owner == e && phases[0].Seen? then 1 else 0) + InFlight(tasks[1..], phases[1..], e)
  }

  lemma {:induction false} TallyBalanced(tasks: seq<Task>, phases: seq<Phase>, e: nat)
    requires |tasks| == |phases| && forall t :: 0 <= t < |tasks| ==> Sensible(tasks[t], phases[t])
    ensures var c := Tally(tasks, phases, e); c.seen == c.accepted + c.rejected + InFlight(tasks, phases, e)
  {
    if tasks != [] {
      TallyBalanced(tasks[1..], phases[1..], e);
    }
  }

  /** At every moment of every interleaving, each extractor's seen hits are its accepted and rejected ones
      and those still in flight. */
  lemma CountersBalanced(tasks: seq<Task>, extractors: nat, schedule: seq<nat>, e: nat)
    requires WellPosed(tasks, extractors) && e < extractors && Runs(tasks, Start(tasks, extractors), schedule)
    ensures
      var st := After(tasks, Start(tasks, extractors), schedule);
      && |st.phases| == |tasks| && |st.counters| == extractors
      && st.counters[e].seen == st.counters[e].accepted + st.counters[e].rejected + InFlight(tasks, st.phases, e)
  {
    StartInvariant(tasks, extractors);
    RunKeeps(tasks, extractors, Start(tasks, extractors), schedule);
    TallyBalanced(tasks, After(tasks, Start(tasks, extractors), schedule).phases, e);
  }

  lemma StartInvariant(tasks: seq<Task>, extractors: nat)
    requires WellPosed(tasks, extractors)
    ensures Invariant(tasks, extractors, Start(tasks, extractors))
  {
    forall e | 0 <= e < extractors
      ensures Tally(tasks, Start(tasks, extractors).phases, e) == ZERO
    {
      TallyStart(tasks, Start(tasks, extractors).phases, e);
    }
  }

  // ----- diagnostics

  /** Three further loads: the steps other threads take before each of them, and the state each one sees. */
  ghost predicate Observes(tasks: seq<Task>, st: State, a: seq<nat>, b: seq<nat>, c: seq<nat>) {
    && Runs(tasks, st, a)
    && Runs(tasks, After(tasks, st, a), b)
    && Runs(tasks, After(tasks, After(tasks, st, a), b), c)
  }

  ghost function Last(tasks: seq<Task>, st: State, a: seq<nat>, b: seq<nat>, c: seq<nat>): (r: State)
    requires Observes(tasks, st, a, b, c)
    ensures |r.counters| == |st.counters| && |r.phases| == |st.phases|
  {
    After(tasks, After(tasks, After(tasks, st, a), b), c)
  }

  /** What `diagnostics` reports for extractor `e`: four separate loads, seen in state `st` and then accepted,
      rejected and emitted, with any steps of other threads in between. */
  ghost function Snapshot(tasks: seq<Task>, st: State, e: nat, a: seq<nat>, b: seq<nat>, c: seq<nat>): Counters
    requires Observes(tasks, st, a, b, c) && e < |st.counters|
  {
    var second := After(tasks, st, a);
    var third := After(tasks, second, b);
    Counters(st.counters[e].seen, second.counters[e].accepted, third.counters[e].rejected,
             After(tasks, third, c).counters[e].emitted)
  }

  /** Every hit of extractor `e` has its verdict counted; some may still have to count what they emitted. */
  ghost predicate Judged(tasks: seq<Task>, st: State, e: nat) {
    forall t :: 0 <= t < |tasks| == |st.phases| && tasks[t].Owned? && tasks[t].owner == e ==>
      st.phases[t].Approved? || st.phases[t].Done?
  }

  predicate SameVerdicts(c: Counters, d: Counters) {
    c.seen == d.seen && c.accepted == d.accepted && c.rejected == d.rejected
  }

  lemma {:induction false} JudgedFrozen(tasks: seq<Task>, extractors: nat, st: State, schedule: seq<nat>, e: nat)
    requires Invariant(tasks, extractors, st) && Runs(tasks, st, schedule) && e < extractors && Judged(tasks, st, e)
    ensures Judged(tasks, After(tasks, st, schedule), e)
    ensures SameVerdicts(After(tasks, st, schedule).counters[e], st.counters[e])
    decreases |schedule|
  {
    hide Tally;
    if schedule != [] {
      StepKeeps(tasks, extractors, st, schedule[0]);
      JudgedFrozen(tasks, extractors, Step(tasks, st, schedule[0]), schedule[1..], e);
    }
  }

  lemma {:induction false} SeenInFlight(tasks: seq<Task>, phases: seq<Phase>, e: nat, t: nat)
    requires |tasks| == |phases| && t < |tasks| && tasks[t].Owned? && tasks[t].owner == e && phases[t].Seen?
    ensures InFlight(tasks, phases, e) > 0
  {
    if t > 0 {
      SeenInFlight(tasks[1..], phases[1..], e, t - 1);
    }
  }

  /** Once every hit of `e` is judged, all reports agree with the counters at the moment of the last load. */
  lemma JudgedSnapshot(tasks: seq<Task>, extractors: nat, st: State, e: nat, a: seq<nat>, b: seq<nat>, c: seq<nat>)
    requires Invariant(tasks, extractors, st) && e < extractors && Judged(tasks, st, e)
    requires Observes(tasks, st, a, b, c)
    ensures Snapshot(tasks, st, e, a, b, c) == Last(tasks, st, a, b, c).counters[e]
    ensures SameVerdicts(Snapshot(tasks, st, e, a, b, c), st.counters[e])
    ensures st.counters[e].seen == st.counters[e].accepted + st.counters[e].rejected
  {
    hide Tally, Invariant, Runs, After, InFlight;
    var second := After(tasks, st, a);
    var third := After(tasks, second, b);
    RunKeeps(tasks, extractors, st, a);
    RunKeeps(tasks, extractors, second, b);
    JudgedFrozen(tasks, extractors, st, a, e);
    JudgedFrozen(tasks, extractors, second, b, e);
    JudgedFrozen(tasks, extractors, third, c, e);
    JudgedBalanced(tasks, extractors, st, e);
  }

  lemma JudgedBalanced(tasks: seq<Task>, extractors: nat, st: State, e: nat)
    requires Invariant(tasks, extractors, st) && e < extractors && Judged(tasks, st, e)
    ensures st.counters[e].seen == st.counters[e].accepted + st.counters[e].rejected
  {
    TallyBalanced(tasks, st.phases, e);
    NoneSeen(tasks, st.phases, e);
  }

  lemma {:induction false} NoneSeen(tasks: seq<Task>, phases: seq<Phase>, e: nat)
    requires |tasks| == |phases|
    requires forall t :: 0 <= t < |tasks| && tasks[t].Owned? && tasks[t].owner == e ==> !phases[t].Seen?
    ensures InFlight(tasks, phases, e) == 0
  {
    if tasks != [] {
      NoneSeen(tasks[1..], phases[1..], e);
    }
  }

  /** The reported verdicts add up to the reported hits. */
  ghost predicate Balances(tasks: seq<Task>, st: State, e: nat, a: seq<nat>, b: seq<nat>, c: seq<nat>)
    requires Observes(tasks, st, a, b, c) && e < |st.counters|
  {
    var r := Snapshot(tasks, st, e, a, b, c);
    r.seen == r.accepted + r.rejected
  }

  /** A report is sure to balance if and only if, when it starts, every hit of the extractor has its verdict:
      a hit not yet seen is as harmful as one in flight. */
  lemma SnapshotBalances(tasks: seq<Task>, extractors: nat, st: State, e: nat)
    requires Invariant(tasks, extractors, st) && e < extractors
    ensures Judged(tasks, st, e) <==>
      forall a, b, c | Observes(tasks, st, a, b, c) :: Balances(tasks, st, e, a, b, c)
  {
    if Judged(tasks, st, e) {
      forall a, b, c | Observes(tasks, st, a, b, c)
        ensures Balances(tasks, st, e, a, b, c)
      {
        JudgedSnapshot(tasks, extractors, st, e, a, b, c);
      }
    } else {
      var t :| 0 <= t < |tasks| && tasks[t].Owned? && tasks[t].owner == e &&
               !(st.phases[t].Approved? || st.phases[t].Done?);
      UnjudgedTears(tasks, extractors, st, e, t);
    }
  }

  lemma UnjudgedTears(tasks: seq<Task>, extractors: nat, st: State, e: nat, t: nat)
    requires Invariant(tasks, extractors, st) && e < extractors && t < |tasks|
    requires tasks[t].Owned? && tasks[t].owner == e && (st.phases[t].Waiting? || st.phases[t].Seen?)
    ensures exists a, b, c :: Observes(tasks, st, a, b, c) && !Balances(tasks, st, e, a, b, c)
  {
    hide Tally, InFlight;
    TallyBalanced(tasks, st.phases, e);
    assert Observes(tasks, st, [], [], []);
    if Balances(tasks, st, e, [], [], []) {
      if st.phases[t].Seen? {
        SeenInFlight(tasks, st.phases, e, t);
      }
      TwoSteps(tasks, st, t);
      if tasks[t].verdict.Refused? {
        assert Observes(tasks, st, [], [t, t], []) && !Balances(tasks, st, e, [], [t, t], []);
      } else {
        assert Observes(tasks, st, [t, t], [], []) && !Balances(tasks, st, e, [t, t], [], []);
      }
    }
  }

  /** A waiting hit runs up to its verdict in two steps. */
  lemma TwoSteps(tasks: seq<Task>, st: State, t: nat)
    requires Enabled(tasks, st, t) && tasks[t].Owned? && st.phases[t].Waiting?
    ensures Runs(tasks, st, [t, t])
    ensures
      var c, d := st.counters[tasks[t].owner], After(tasks, st, [t, t]).counters[tasks[t].owner];
      && d.seen == c.seen + 1
      && d.accepted == c.accepted + (if tasks[t].verdict.Refused? then 0 else 1)
      && d.rejected == c.rejected + (if tasks[t].verdict.Refused? then 1 else 0)
  {
    var one := Step(tasks, st, t);
    assert [t, t][1..] == [t] && [t][1..] == [];
    assert Runs(tasks, one, [t]) && After(tasks, one, [t]) == Step(tasks, one, t);
  }

  /** Not a consistent snapshot: a report that rejects more hits than it has seen, with nothing in flight
      when it starts and nothing when it ends. Nor do the counters of one moment always balance. */
  lemma TornSnapshot()
    ensures var tasks, st := [Owned(0, Refused)], Start([Owned(0, Refused)], 1);
      && Observes(tasks, st, [], [0, 0], [])
      && Snapshot(tasks, st, 0, [], [0, 0], []) == Counters(0, 0, 1, 0)
      && InFlight(tasks, st.phases, 0) == 0 && Quiet(Last(tasks, st, [], [0, 0], []))
      && Runs(tasks, st, [0]) && After(tasks, st, [0]).counters == [Counters(1, 0, 0, 0)]
  {
    var tasks := [Owned(0, Refused)];
    var st := Start(tasks, 1);
    TwoSteps(tasks, st, 0);
    var one := Step(tasks, st, 0);
    assert [0, 0][1..] == [0] && [0][1..] == [];
    assert After(tasks, one, [0]) == Step(tasks, one, 0);
  }

  // ----- quiescence

  ghost predicate Quiet(st: State) {
    forall t :: 0 <= t < |st.phases| ==> st.phases[t] == Done
  }

  /** What processing the hits one after the other adds to extractor `e`. */
  function Total(tasks: seq<Task>, e: nat): Counters {
    if tasks == [] then ZERO else AddedTo(tasks[0], Done, e).Plus(Total(tasks[1..], e))
  }

  lemma {:induction false} TallyDone(tasks: seq<Task>, phases: seq<Phase>, e: nat)
    requires |tasks| == |phases| && forall t :: 0 <= t < |phases| ==> phases[t] == Done
    ensures Tally(tasks, phases, e) == Total(tasks, e)
  {
    if tasks != [] {
      TallyDone(tasks[1..], phases[1..], e);
    }
  }

  /** Once every hit is processed the counters are those of a sequential pass, whatever the interleaving:
      seen is accepted plus rejected, and emitted is the number of artefacts returned. */
  lemma QuietCounters(tasks: seq<Task>, extractors: nat, schedule: seq<nat>, e: nat)
    requires WellPosed(tasks, extractors) && e < extractors && Runs(tasks, Start(tasks, extractors), schedule)
    requires Quiet(After(tasks, Start(tasks, extractors), schedule))
    ensures
      var st := After(tasks, Start(tasks, extractors), schedule);
      && |st.counters| == extractors
      && st.counters[e] == Total(tasks, e)
      && st.counters[e].seen == st.counters[e].accepted + st.counters[e].rejected
  {
    StartInvariant(tasks, extractors);
    RunKeeps(tasks, extractors, Start(tasks, extractors), schedule);
    var st := After(tasks, Start(tasks, extractors), schedule);
    TallyDone(tasks, st.phases, e);
    TallyBalanced(tasks, st.phases, e);
    NoneInFlight(tasks, st.phases, e);
  }

  lemma {:induction false} NoneInFlight(tasks: seq<Task>, phases: seq<Phase>, e: nat)
    requires |tasks| == |phases| && forall t :: 0 <= t < |phases| ==> phases[t] == Done
    ensures InFlight(tasks, phases, e) == 0
  {
    if tasks != [] {
      NoneInFlight(tasks[1..], phases[1..], e);
    }
  }

  /** The task a hit's outcome makes, and that its counted total is the outcome's. */
  function TaskOf(owner: nat, outcome: Outcome): Task {
    match outcome
    case Unknown => Stray
    case Rejected => Owned(owner, Refused)
    case Accepted(carved) => Owned(owner, Emits(|carved|))
  }

  lemma TaskCounts(owner: nat, outcome: Outcome)
    ensures AddedTo(TaskOf(owner, outcome), Done, owner) == outcome.Counted()
    ensures forall e: nat :: e != owner ==> AddedTo(TaskOf(owner, outcome), Done, e) == ZERO
  {
  }
}
