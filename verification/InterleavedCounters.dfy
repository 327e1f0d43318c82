/** The counter laws over every interleaving of the worker with additions and snapshots. */
module InterleavedCounters {
  import opened Pages
  import opened Partition
  import opened Operations
  import opened Runs
  import opened Scheduling
  import opened Interleaving

  // ----- shared pages of all processes -----

  ghost predicate AllWellFormed(processes: Processes) {
    forall t :: InRange(processes, t) ==> WellFormed(RegionAt(processes, t).pages)
  }

  ghost predicate AllFresh(processes: Processes) {
    forall t :: InRange(processes, t) ==> FreshPages(RegionAt(processes, t).pages)
  }

  ghost function SharedIn(processes: Processes): nat {
    if processes == [] then 0
    else SharedIn(processes[..|processes| - 1]) + TotalShared(processes[|processes| - 1].regions)
  }

  lemma {:induction false} SharedAfterUpdate(processes: Processes, t: Target, region: RegionValue)
    requires InRange(processes, t)
    ensures SharedIn(WithRegion(processes, t, region)) + SharedCount(RegionAt(processes, t).pages)
         == SharedIn(processes) + SharedCount(region.pages)
  {
    hide TotalShared, SharedCount;
    var n, after := |processes| - 1, WithRegion(processes, t, region);
    if t.process < n {
      SharedAfterUpdate(processes[..n], t, region);
      assert after[..n] == WithRegion(processes[..n], t, region);
    } else {
      assert after[..n] == processes[..n];
      TotalAfterUpdate(processes[n].regions, t.region, region);
    }
  }

  lemma SharedAfterAddition(processes: Processes, process: ProcessState)
    ensures SharedIn(processes + [process]) == SharedIn(processes) + TotalShared(process.regions)
  {
    assert (processes + [process])[..|processes|] == processes;
  }

  lemma {:induction false} FreshProcesses(processes: Processes)
    requires AllFresh(processes)
    ensures AllWellFormed(processes) && SharedIn(processes) == 0
  {
    forall t | InRange(processes, t)
      ensures WellFormed(RegionAt(processes, t).pages)
    {
      FreshIsWellFormed(RegionAt(processes, t).pages);
    }
    if processes != [] {
      var n := |processes| - 1;
      assert forall t :: InRange(processes[..n], t) ==> InRange(processes, t);
      FreshProcesses(processes[..n]);
      forall r | 0 <= r < |processes[n].regions|
        ensures FreshPages(processes[n].regions[r].pages)
      {
        assert InRange(processes, Target(n, r));
      }
      FreshSatisfiesInvariant(EngineState(processes[n].regions, ZERO_STATS));
    }
  }

  // ----- what one step keeps -----

  /** Pages scanned that were counted neither as unique nor as duplicate. */
  function Uncounted(stats: Stats): int {
    stats.pagesScanned - stats.uniquePages - stats.duplicatePages
  }

  /** Bytes saved beyond a page for each duplicate. */
  function Unexplained(stats: Stats): int {
    stats.bytesSaved - PAGE_SIZE * stats.duplicatePages
  }

  /** The laws since a start with these counters, when these processes were there or were added:
      every page scanned is unique or a duplicate, each duplicate saves a page, and the pages that
      became shared are the duplicates. */
  ghost predicate Balances(a: SchedulerValue, start: Stats, known: Processes) {
    && AllWellFormed(a.processes)
    && Uncounted(a.stats) == Uncounted(start) && Unexplained(a.stats) == Unexplained(start)
    && SharedIn(a.processes) - a.stats.duplicatePages == SharedIn(known) - start.duplicatePages
  }

  lemma ScanBalances(region: RegionValue, sig: Signer, stats: Stats)
    requires WellFormed(region.pages) && Scannable(region, sig)
    ensures var after := ScanStats(region, sig, stats);
            && WellFormed(ScannedRegion(region).pages)
            && Uncounted(after) == Uncounted(stats) && Unexplained(after) == Unexplained(stats)
            && SharedCount(ScannedRegion(region).pages) - after.duplicatePages
               == SharedCount(region.pages) - stats.duplicatePages
  {
    hide SharedCount, Scanned, ScanStatsUpTo, WellFormed;
    if region.optIn {
      ScanKeepsWellFormed(region.pages);
      ScanDeltas(region.pages, sig, stats);
    }
  }

  lemma AtomicScanBalances(pred: Predictor, sig: Signer, a: SchedulerValue, e: AtomicEvent, a': SchedulerValue,
                           start: Stats, known: Processes)
    requires AtomicStep(pred, sig, a, e, a') && e.AtomicScan? && Balances(a, start, known)
    ensures Balances(a', start, known)
  {
    hide SharedIn, SharedCount, WellFormed, ScanStats, ScannedRegion, IsBest, Scannable;
    var t := e.target;
    var region := RegionAt(a.processes, t);
    ScanBalances(region, sig, a.stats);
    SharedAfterUpdate(a.processes, t, ScannedRegion(region));
    forall u | InRange(a'.processes, u)
      ensures WellFormed(RegionAt(a'.processes, u).pages)
    {
      WithRegionAt(a.processes, t, ScannedRegion(region), u);
    }
  }

  lemma AdditionBalances(a: SchedulerValue, process: ProcessState, start: Stats, known: Processes)
    requires Balances(a, start, known) && AllWellFormed(known + [process])
    ensures Balances(a.(processes := a.processes + [process]), start, known + [process])
  {
    hide SharedIn, WellFormed, TotalShared;
    SharedAfterAddition(a.processes, process);
    SharedAfterAddition(known, process);
    forall u | InRange(a.processes + [process], u)
      ensures WellFormed(RegionAt(a.processes + [process], u).pages)
    {
      if u.process == |a.processes| {
        assert InRange(known + [process], Target(|known|, u.region));
        assert RegionAt(known + [process], Target(|known|, u.region)) == process.regions[u.region];
      } else {
        assert InRange(a.processes, u);
      }
    }
  }

  // ----- over every interleaving -----

  lemma {:induction false} TraceBalances(pred: Predictor, sig: Signer, states: seq<State>, events: seq<Event>, i: nat)
    requires IsTrace(pred, sig, states, events) && i < |states|
    requires AllWellFormed(states[0].processes + Added(events[..i]))
    ensures Balances(Abstract(states[i]), states[0].stats, states[0].processes + Added(events[..i]))
  {
    hide SharedIn, WellFormed, Uncounted, Unexplained, Step, AtomicStep;
    var first := states[0].processes;
    if i == 0 {
      assert first + Added(events[..0]) == first;
      return;
    }
    var e, known, all := events[i - 1], first + Added(events[..i - 1]), first + Added(events[..i]);
    assert events[..i][..i - 1] == events[..i - 1];
    assert all == if e.AddProcess? then known + [e.process] else known;
    EarlierWellFormed(known, all);
    TraceBalances(pred, sig, states, events, i - 1);
    TraceRefinesAtomicRun(pred, sig, states, events);
    var s, s' := states[i - 1], states[i];
    assert s' == states[(i - 1) + 1];
    AtomicStepBalances(pred, sig, Abstract(s), AbstractEvent(s, e), Abstract(s'), states[0].stats, known);
  }

  lemma EarlierWellFormed(known: Processes, all: Processes)
    requires AllWellFormed(all) && |known| <= |all| && known == all[..|known|]
    ensures AllWellFormed(known)
  {
    hide WellFormed;
    forall t | InRange(known, t)
      ensures WellFormed(RegionAt(known, t).pages)
    {
      assert InRange(all, t);
    }
  }

  lemma AtomicStepBalances(pred: Predictor, sig: Signer, a: SchedulerValue, e: AtomicEvent, a': SchedulerValue,
                           start: Stats, known: Processes)
    requires AtomicStep(pred, sig, a, e, a') && Balances(a, start, known)
    requires e.Adds? ==> AllWellFormed(known + [e.process])
    ensures Balances(a', start, if e.Adds? then known + [e.process] else known)
  {
    hide Balances, AllWellFormed;
    match e
    case Adds(process) => AdditionBalances(a, process, start, known);
    case AtomicScan(_, _) => AtomicScanBalances(pred, sig, a, e, a', start, known);
    case _ =>
  }

  /** Over every interleaving from zero counters, with fresh processes only: every page scanned was
      counted once as unique or duplicate, 4096 bytes are saved per duplicate, and the pages shared
      across all processes are the duplicates. */
  lemma FreshTraceBalances(pred: Predictor, sig: Signer, states: seq<State>, events: seq<Event>, i: nat)
    requires IsTrace(pred, sig, states, events) && i < |states| && states[0].stats == ZERO_STATS
    requires AllFresh(states[0].processes + Added(events[..i]))
    ensures BalancesFromZero(Abstract(states[i]))
  {
    hide SharedIn, AllWellFormed, AllFresh, Added, Step, Balances, BalancesFromZero, Abstract;
    var known := states[0].processes + Added(events[..i]);
    FreshProcesses(known);
    TraceBalances(pred, sig, states, events, i);
    ZeroStartBalances(Abstract(states[i]), known);
  }

  ghost predicate BalancesFromZero(a: SchedulerValue) {
    && a.stats.pagesScanned == a.stats.uniquePages + a.stats.duplicatePages
    && a.stats.bytesSaved == PAGE_SIZE * a.stats.duplicatePages
    && SharedIn(a.processes) == a.stats.duplicatePages
  }

  lemma ZeroStartBalances(a: SchedulerValue, known: Processes)
    requires Balances(a, ZERO_STATS, known) && SharedIn(known) == 0
    ensures BalancesFromZero(a)
  {
    hide SharedIn, AllWellFormed;
  }
}
