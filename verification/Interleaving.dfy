/** The worker's four steps, interleaved with `addProcess` and `snapshotProcesses`, against a
    scheduler whose scans are atomic. */
module Interleaving {
  import opened Pages
  import opened Operations
  import opened Scheduling

  // ----- the worker as the code runs it -----

  /** Where the worker stands between its locked sections, with the locals it carries.
      `among` and `before` are history: how many processes the selection saw, and the
      counters when the scan began. */
  datatype Phase =
    | Idle
    | Chosen(target: Target, among: nat)
    | Copied(target: Target, among: nat, copy: RegionValue)
    | ScanDone(target: Target, among: nat, copy: RegionValue, result: RegionValue, before: Stats)

  datatype State = State(processes: Processes, stats: Stats, phase: Phase)

  datatype Event =
    | AddProcess(process: ProcessState)
    | Snapshot(seen: Processes)
    | Choose
    | CopyRegion
    | ScanCopy
    | WriteBack

  ghost predicate Step(pred: Predictor, sig: Signer, s: State, e: Event, s': State) {
    match e
    case AddProcess(process) => s' == s.(processes := s.processes + [process])
    case Snapshot(seen) => seen == s.processes && s' == s
    case Choose =>
      && s.phase.Idle?
      && s' == s.(phase := match Selection(pred, s.processes)
                           case None => Idle
                           case Some(t) => Chosen(t, |s.processes|))
    case CopyRegion =>
      && s.phase.Chosen? && InRange(s.processes, s.phase.target)
      && s' == s.(phase := Copied(s.phase.target, s.phase.among, RegionAt(s.processes, s.phase.target)))
    case ScanCopy =>
      && s.phase.Copied? && Scannable(s.phase.copy, sig)
      && s' == s.(stats := ScanStats(s.phase.copy, sig, s.stats),
                  phase := ScanDone(s.phase.target, s.phase.among, s.phase.copy, ScannedRegion(s.phase.copy), s.stats))
    case WriteBack =>
      && s.phase.ScanDone? && InRange(s.processes, s.phase.target)
      && s' == s.(processes := WithRegion(s.processes, s.phase.target, s.phase.result), phase := Idle)
  }

  // ----- the scheduler with atomic scans -----

  datatype AtomicEvent =
    | Adds(process: ProcessState)
    | Sees(seen: Processes)
    | AtomicScan(target: Target, among: nat)
    | Nothing

  /** An atomic scan picks the best region among the first `among` processes. */
  ghost predicate AtomicStep(pred: Predictor, sig: Signer, a: SchedulerValue, e: AtomicEvent, a': SchedulerValue) {
    match e
    case Adds(process) => a' == a.(processes := a.processes + [process])
    case Sees(seen) => seen == a.processes && a' == a
    case AtomicScan(t, among) =>
      && among <= |a.processes| && IsBest(pred, a.processes[..among], t)
      && InRange(a.processes, t) && Scannable(RegionAt(a.processes, t), sig)
      && a' == SchedulerValue(WithScanned(a.processes, t), ScanStats(RegionAt(a.processes, t), sig, a.stats))
    case Nothing => a' == a
  }

  /** A scan takes effect when its result is written back; until then its counters do not show. */
  ghost function Abstract(s: State): SchedulerValue {
    SchedulerValue(s.processes, if s.phase.ScanDone? then s.phase.before else s.stats)
  }

  ghost function AbstractEvent(s: State, e: Event): AtomicEvent {
    match e
    case AddProcess(process) => Adds(process)
    case Snapshot(seen) => Sees(seen)
    case WriteBack => if s.phase.ScanDone? then AtomicScan(s.phase.target, s.phase.among) else Nothing
    case _ => Nothing
  }

  // ----- refinement -----

  /** The indices carried by the worker stay valid, what it carries was the best choice, and
      the region in the list is still the one that was copied. */
  ghost predicate Consistent(pred: Predictor, sig: Signer, s: State) {
    match s.phase
    case Idle => true
    case Chosen(t, among) => ChosenFrom(pred, s.processes, t, among)
    case Copied(t, among, copy) => ChosenFrom(pred, s.processes, t, among) && RegionAt(s.processes, t) == copy
    case ScanDone(t, among, copy, result, before) =>
      && ChosenFrom(pred, s.processes, t, among) && RegionAt(s.processes, t) == copy
      && Scannable(copy, sig) && result == ScannedRegion(copy) && s.stats == ScanStats(copy, sig, before)
  }

  ghost predicate ChosenFrom(pred: Predictor, processes: Processes, t: Target, among: nat) {
    among <= |processes| && IsBest(pred, processes[..among], t) && InRange(processes, t)
  }

  lemma AddingKeepsChoice(pred: Predictor, processes: Processes, t: Target, among: nat, process: ProcessState)
    requires ChosenFrom(pred, processes, t, among)
    ensures ChosenFrom(pred, processes + [process], t, among)
    ensures RegionAt(processes + [process], t) == RegionAt(processes, t)
  {
    assert (processes + [process])[..among] == processes[..among];
  }

  lemma StepRefinesAtomicStep(pred: Predictor, sig: Signer, s: State, e: Event, s': State)
    requires Consistent(pred, sig, s) && Step(pred, sig, s, e, s')
    ensures Consistent(pred, sig, s')
    ensures AtomicStep(pred, sig, Abstract(s), AbstractEvent(s, e), Abstract(s'))
  {
    match e {
      case AddProcess(process) =>
        if !s.phase.Idle? {
          AddingKeepsChoice(pred, s.processes, s.phase.target, s.phase.among, process);
        }
        hide IsBest, Selection, ScanStats, ScannedRegion, Scannable;
      case Choose =>
        assert s.processes[..|s.processes|] == s.processes;
      case _ =>
        hide IsBest, Selection, ScanStats, ScannedRegion, Scannable, WithRegion;
    }
  }

  /** The worker is never stuck on an index out of range. */
  lemma WorkerIndicesStayValid(pred: Predictor, sig: Signer, s: State)
    requires Consistent(pred, sig, s)
    ensures s.phase.Chosen? ==> exists s' :: Step(pred, sig, s, CopyRegion, s')
    ensures s.phase.ScanDone? ==> exists s' :: Step(pred, sig, s, WriteBack, s')
  {
    if s.phase.Chosen? {
      assert Step(pred, sig, s, CopyRegion,
                  s.(phase := Copied(s.phase.target, s.phase.among, RegionAt(s.processes, s.phase.target))));
    }
    if s.phase.ScanDone? {
      assert Step(pred, sig, s, WriteBack,
                  s.(processes := WithRegion(s.processes, s.phase.target, s.phase.result), phase := Idle));
    }
  }

  // ----- whole runs -----

  ghost predicate IsTrace(pred: Predictor, sig: Signer, states: seq<State>, events: seq<Event>) {
    && |states| == |events| + 1 && states[0].phase.Idle?
    && forall i :: 0 <= i < |events| ==> Step(pred, sig, states[i], events[i], states[i + 1])
  }

  lemma {:induction false} TraceIsConsistent(pred: Predictor, sig: Signer, states: seq<State>,
                                             events: seq<Event>, i: nat)
    requires IsTrace(pred, sig, states, events) && i < |states|
    ensures Consistent(pred, sig, states[i])
  {
    if i > 0 {
      TraceIsConsistent(pred, sig, states, events, i - 1);
      StepRefinesAtomicStep(pred, sig, states[i - 1], events[i - 1], states[i]);
    }
  }

  /** Every interleaving is, step for step, a run with atomic scans that adds and shows the
      same processes: a snapshot sees a region wholly before or wholly after its scan. */
  lemma TraceRefinesAtomicRun(pred: Predictor, sig: Signer, states: seq<State>, events: seq<Event>)
    requires IsTrace(pred, sig, states, events)
    ensures forall i :: 0 <= i < |events| ==>
      AtomicStep(pred, sig, Abstract(states[i]), AbstractEvent(states[i], events[i]), Abstract(states[i + 1]))
    ensures Abstract(states[0]) == SchedulerValue(states[0].processes, states[0].stats)
  {
    forall i | 0 <= i < |events|
      ensures AtomicStep(pred, sig, Abstract(states[i]), AbstractEvent(states[i], events[i]), Abstract(states[i + 1]))
    {
      TraceIsConsistent(pred, sig, states, events, i);
      StepRefinesAtomicStep(pred, sig, states[i], events[i], states[i + 1]);
    }
  }

  // ----- what no interleaving touches -----

  function Added(events: seq<Event>): Processes {
    if events == [] then []
    else
      var e := events[|events| - 1];
      Added(events[..|events| - 1]) + (if e.AddProcess? then [e.process] else [])
  }

  /** A region differs from what it was only in the sharing of pages, and only if it and its
      process are opted in. */
  ghost predicate OnlySharingChanged(was: RegionValue, now: RegionValue, optIn: bool) {
    && now.name == was.name && now.optIn == was.optIn
    && Contents(now.pages) == Contents(was.pages)
    && (!optIn || !was.optIn ==> now == was)
  }

  ghost predicate Preserves(original: Processes, now: Processes) {
    && |original| == |now|
    && (forall i :: 0 <= i < |now| ==>
          && original[i].pid == now[i].pid && original[i].name == now[i].name && original[i].optIn == now[i].optIn
          && |original[i].regions| == |now[i].regions|)
    && (forall t :: InRange(original, t) && InRange(now, t) ==>
          OnlySharingChanged(RegionAt(original, t), RegionAt(now, t), now[t.process].optIn))
  }

  lemma PreservesAppend(original: Processes, now: Processes, process: ProcessState)
    requires Preserves(original, now)
    ensures Preserves(original + [process], now + [process])
  {
    forall t | InRange(original + [process], t) && InRange(now + [process], t)
      ensures OnlySharingChanged(RegionAt(original + [process], t), RegionAt(now + [process], t),
                                 (now + [process])[t.process].optIn)
    {
      if t.process < |original| {
        assert InRange(original, t) && InRange(now, t);
        assert OnlySharingChanged(RegionAt(original, t), RegionAt(now, t), now[t.process].optIn);
      }
    }
  }

  lemma PreservesScan(original: Processes, now: Processes, t: Target)
    requires Preserves(original, now) && IsCandidate(now, t)
    ensures Preserves(original, WithScanned(now, t))
  {
    var after := WithScanned(now, t);
    forall u | InRange(original, u) && InRange(after, u)
      ensures OnlySharingChanged(RegionAt(original, u), RegionAt(after, u), after[u.process].optIn)
    {
      WithRegionAt(now, t, ScannedRegion(RegionAt(now, t)), u);
      assert OnlySharingChanged(RegionAt(original, u), RegionAt(now, u), now[u.process].optIn);
      assert Contents(ScannedRegion(RegionAt(now, t)).pages) == Contents(RegionAt(now, t).pages);
    }
  }

  /** Over every interleaving: no added process is lost or reordered, no byte of any page
      changes, and regions that are opted out, or whose process is, are left as they were. */
  lemma {:induction false} TracePreservesProcesses(pred: Predictor, sig: Signer, states: seq<State>,
                                                   events: seq<Event>, i: nat)
    requires IsTrace(pred, sig, states, events) && i < |states|
    ensures Preserves(states[0].processes + Added(events[..i]), states[i].processes)
  {
    var original := states[0].processes;
    if i == 0 {
      assert original + Added(events[..0]) == original;
    } else {
      TracePreservesProcesses(pred, sig, states, events, i - 1);
      TraceIsConsistent(pred, sig, states, events, i - 1);
      assert events[..i][..i - 1] == events[..i - 1];
      var e, s := events[i - 1], states[i - 1];
      assert Step(pred, sig, s, e, states[(i - 1) + 1]);
      var known := original + Added(events[..i - 1]);
      if e.AddProcess? {
        PreservesAppend(known, s.processes, e.process);
        assert known + [e.process] == original + Added(events[..i]);
      } else {
        assert original + Added(events[..i]) == known;
        if e.WriteBack? {
          assert s.phase.ScanDone?;
          assert s.processes[..s.phase.among][s.phase.target.process] == s.processes[s.phase.target.process];
          PreservesScan(known, s.processes, s.phase.target);
        }
      }
    }
    hide Preserves, Consistent, Selection;
  }
}
