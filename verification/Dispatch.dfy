/** Dispatching a list of hits: what comes back, and what the counters hold afterwards, whether one thread
    does it or many. */
module Dispatch {
  import opened Sources
  import opened Extractors
  import opened Registries
  import opened RegistryRuns
  import Scan

  /** Artefacts of the hits, in hit order. */
  ghost function Extracted(registry: Registry, s: Source, hits: seq<Scan.Hit>): seq<Carved>
    requires Assigned(registry.extractors, registry.patterns, registry.owners, |registry.extractors|)
  {
    if hits == [] then [] else
    var h := hits[|hits| - 1];
    Extracted(registry, s, hits[..|hits| - 1]) + registry.OutcomeOf(s, h.offset, h.pattern).Artefacts()
  }

  ghost function TaskFor(registry: Registry, s: Source, h: Scan.Hit): Task
    requires Assigned(registry.extractors, registry.patterns, registry.owners, |registry.extractors|)
  {
    TaskOf(if h.pattern < |registry.owners| then registry.owners[h.pattern] else 0,
           registry.OutcomeOf(s, h.offset, h.pattern))
  }

  /** The hits as tasks of the interleaving machine. */
  ghost function Tasks(registry: Registry, s: Source, hits: seq<Scan.Hit>): (r: seq<Task>)
    requires Assigned(registry.extractors, registry.patterns, registry.owners, |registry.extractors|)
    ensures |r| == |hits|
  {
    if hits == [] then [] else
    Tasks(registry, s, hits[..|hits| - 1]) + [TaskFor(registry, s, hits[|hits| - 1])]
  }

  lemma {:induction false} TasksPosed(registry: Registry, s: Source, hits: seq<Scan.Hit>)
    requires Assigned(registry.extractors, registry.patterns, registry.owners, |registry.extractors|)
    ensures WellPosed(Tasks(registry, s, hits), |registry.extractors|)
  {
    hide Judge;
    if hits != [] {
      TasksPosed(registry, s, hits[..|hits| - 1]);
    }
  }

  lemma {:induction false} TotalGrows(tasks: seq<Task>, task: Task, e: nat)
    ensures Total(tasks + [task], e) == Total(tasks, e).Plus(AddedTo(task, Done, e))
  {
    hide AddedTo;
    if tasks == [] {
      assert tasks + [task] == [task] && [task][1..] == [];
    } else {
      assert (tasks + [task])[1..] == tasks[1..] + [task];
      TotalGrows(tasks[1..], task, e);
    }
  }

  /** One more hit adds its own outcome to its owner's totals and nothing to any other's. */
  lemma HitCounted(registry: Registry, s: Source, hits: seq<Scan.Hit>, h: Scan.Hit, e: nat)
    requires Assigned(registry.extractors, registry.patterns, registry.owners, |registry.extractors|)
    ensures Total(Tasks(registry, s, hits + [h]), e) ==
            Total(Tasks(registry, s, hits), e).Plus(
              if h.pattern < |registry.owners| && registry.owners[h.pattern] == e
              then registry.OutcomeOf(s, h.offset, h.pattern).Counted() else ZERO)
  {
    hide Judge, Total, Assigned;
    assert (hits + [h])[..|hits + [h]| - 1] == hits;
    TotalGrows(Tasks(registry, s, hits), TaskFor(registry, s, h), e);
    if h.pattern < |registry.owners| {
      TaskCounts(registry.owners[h.pattern], registry.OutcomeOf(s, h.offset, h.pattern));
    }
  }

  function Emitted(counters: seq<Counters>): nat {
    if counters == [] then 0 else Emitted(counters[..|counters| - 1]) + counters[|counters| - 1].emitted
  }

  function EmittedBy(tasks: seq<Task>, extractors: nat): nat {
    if extractors == 0 then 0 else EmittedBy(tasks, extractors - 1) + Total(tasks, extractors - 1).emitted
  }

  lemma {:induction false} EmittedAgrees(tasks: seq<Task>, counters: seq<Counters>)
    requires forall e :: 0 <= e < |counters| ==> counters[e] == Total(tasks, e)
    ensures Emitted(counters) == EmittedBy(tasks, |counters|)
  {
    hide Total;
    if counters != [] {
      EmittedAgrees(tasks, counters[..|counters| - 1]);
    }
  }

  function EmittedByTask(task: Task, extractors: nat): nat {
    if task.Owned? && task.owner < extractors && task.verdict.Emits? then task.verdict.count else 0
  }

  lemma {:induction false} EmittedGrows(tasks: seq<Task>, task: Task, extractors: nat)
    ensures EmittedBy(tasks + [task], extractors) == EmittedBy(tasks, extractors) + EmittedByTask(task, extractors)
  {
    hide Total;
    if extractors > 0 {
      EmittedGrows(tasks, task, extractors - 1);
      TotalGrows(tasks, task, extractors - 1);
    }
  }

  lemma {:induction false} EmittedIsReturned(registry: Registry, s: Source, hits: seq<Scan.Hit>)
    requires Assigned(registry.extractors, registry.patterns, registry.owners, |registry.extractors|)
    ensures EmittedBy(Tasks(registry, s, hits), |registry.extractors|) == |Extracted(registry, s, hits)|
  {
    hide Judge, EmittedBy;
    if hits == [] {
      NothingEmitted(|registry.extractors|);
    } else {
      var before, h := hits[..|hits| - 1], hits[|hits| - 1];
      EmittedIsReturned(registry, s, before);
      EmittedGrows(Tasks(registry, s, before), TaskFor(registry, s, h), |registry.extractors|);
    }
  }

  lemma {:induction false} NothingEmitted(extractors: nat)
    ensures EmittedBy([], extractors) == 0
  {
    if extractors > 0 {
      NothingEmitted(extractors - 1);
    }
  }

  /** Once any number of threads have dispatched the hits in any interleaving, every extractor's counters
      are those of one thread dispatching them in order, seen is accepted plus rejected, and the emitted
      counts add up to exactly the artefacts returned. */
  lemma DispatchConserved(registry: Registry, s: Source, hits: seq<Scan.Hit>, schedule: seq<nat>)
    requires Assigned(registry.extractors, registry.patterns, registry.owners, |registry.extractors|)
    requires Runs(Tasks(registry, s, hits), Start(Tasks(registry, s, hits), |registry.extractors|), schedule)
    requires Quiet(After(Tasks(registry, s, hits), Start(Tasks(registry, s, hits), |registry.extractors|), schedule))
    ensures
      var tasks, n := Tasks(registry, s, hits), |registry.extractors|;
      var counters := After(tasks, Start(tasks, n), schedule).counters;
      && |counters| == n
      && (forall e :: 0 <= e < n ==> counters[e] == Total(tasks, e))
      && (forall e :: 0 <= e < n ==> counters[e].seen == counters[e].accepted + counters[e].rejected)
      && Emitted(counters) == |Extracted(registry, s, hits)|
  {
    hide Judge, Runs, After, Total, Quiet, Extracted, Assigned;
    var tasks, n := Tasks(registry, s, hits), |registry.extractors|;
    TasksPosed(registry, s, hits);
    var st := After(tasks, Start(tasks, n), schedule);
    StartInvariant(tasks, n);
    RunKeeps(tasks, n, Start(tasks, n), schedule);
    forall e | 0 <= e < n
      ensures st.counters[e] == Total(tasks, e)
      ensures st.counters[e].seen == st.counters[e].accepted + st.counters[e].rejected
    {
      QuietCounters(tasks, n, schedule, e);
    }
    EmittedAgrees(tasks, st.counters);
    EmittedIsReturned(registry, s, hits);
  }
}
