/** Which region the scheduler scans next, and what repeating that does. */
module Scheduling {
  import opened Options
  import opened Pages
  import opened Partition
  import opened Operations
  import opened Runs

  datatype Prediction = Prediction(score: real, reason: string)

  /** The predictor is any pair of functions of a name and a count. */
  datatype Predictor = Predictor(process: (string, nat) -> Prediction, region: (string, nat) -> Prediction)

  /** Scores are clamped to [0, 1]. */
  ghost predicate Clamped(p: Predictor) {
    forall name, count :: 0.0 <= p.process(name, count).score <= 1.0 && 0.0 <= p.region(name, count).score <= 1.0
  }

  datatype ProcessState = ProcessState(pid: bv64, name: string, optIn: bool, regions: seq<RegionValue>)

  type Processes = seq<ProcessState>

  datatype Target = Target(process: nat, region: nat)

  // ----- selection -----

  predicate InRange(processes: Processes, t: Target) {
    t.process < |processes| && t.region < |processes[t.process].regions|
  }

  /** Only the process must be opted in; a region that is not may still be selected. */
  predicate IsCandidate(processes: Processes, t: Target) {
    InRange(processes, t) && processes[t.process].optIn
  }

  function RegionAt(processes: Processes, t: Target): RegionValue
    requires InRange(processes, t)
  {
    processes[t.process].regions[t.region]
  }

  /** The process prediction is given the number of regions, the region prediction the number of pages. */
  function Score(pred: Predictor, processes: Processes, t: Target): real
    requires InRange(processes, t)
  {
    var p, r := processes[t.process], RegionAt(processes, t);
    (pred.process(p.name, |p.regions|).score + pred.region(r.name, |r.pages|).score) / 2.0
  }

  predicate Precedes(a: Target, b: Target) {
    a.process < b.process || (a.process == b.process && a.region < b.region)
  }

  /** t wins against u: a higher score, or the same score and an earlier place. */
  predicate Beats(pred: Predictor, processes: Processes, t: Target, u: Target)
    requires InRange(processes, t) && InRange(processes, u)
  {
    Score(pred, processes, t) > Score(pred, processes, u)
    || (Score(pred, processes, t) == Score(pred, processes, u) && Precedes(t, u))
  }

  ghost predicate IsBest(pred: Predictor, processes: Processes, t: Target) {
    IsCandidate(processes, t)
    && forall u :: IsCandidate(processes, u) && u != t ==> Beats(pred, processes, t, u)
  }

  lemma BestIsUnique(pred: Predictor, processes: Processes, t: Target, u: Target)
    requires IsBest(pred, processes, t) && IsBest(pred, processes, u)
    ensures t == u
  {}

  lemma BestIsCandidate(pred: Predictor, processes: Processes, t: Target)
    requires IsBest(pred, processes, t)
    ensures IsCandidate(processes, t)
  {}

  /** What being best means in the predictor's own terms: the sum of the two predictions is the
      greatest, and strictly greater than that of every earlier candidate. */
  lemma BestByPredictions(pred: Predictor, processes: Processes, t: Target)
    requires IsCandidate(processes, t)
    ensures IsBest(pred, processes, t)
       <==> forall u :: IsCandidate(processes, u) ==>
              var p, r := processes[t.process], processes[t.process].regions[t.region];
              var q, c := processes[u.process], processes[u.process].regions[u.region];
              var mine := pred.process(p.name, |p.regions|).score + pred.region(r.name, |r.pages|).score;
              var other := pred.process(q.name, |q.regions|).score + pred.region(c.name, |c.pages|).score;
              && mine >= other
              && (u.process < t.process || (u.process == t.process && u.region < t.region) ==> mine > other)
  {
    forall u | IsCandidate(processes, u) && u != t
      ensures Precedes(u, t) || Precedes(t, u)
    {
      assert u == Target(u.process, u.region) && t == Target(t.process, t.region);
    }
  }

  ghost function Selection(pred: Predictor, processes: Processes): Option<Target> {
    if t :| IsBest(pred, processes, t) then Some(t) else None
  }

  /** Nothing is selected exactly when no opted-in process has a region. */
  lemma SelectionExists(pred: Predictor, processes: Processes)
    ensures Selection(pred, processes) == None <==> forall t :: !IsCandidate(processes, t)
  {
    if t :| IsCandidate(processes, t) {
      var candidates := set i, j | 0 <= i < |processes| && 0 <= j < |processes[i].regions|
                                   && IsCandidate(processes, Target(i, j)) :: Target(i, j);
      assert t == Target(t.process, t.region) && t in candidates;
      var best := BestOf(pred, processes, candidates);
      forall u | IsCandidate(processes, u) && u != best
        ensures Beats(pred, processes, best, u)
      {
        assert u == Target(u.process, u.region) && u in candidates;
      }
      assert IsBest(pred, processes, best);
    }
  }

  lemma BestOf(pred: Predictor, processes: Processes, candidates: set<Target>) returns (best: Target)
    requires candidates != {} && forall t :: t in candidates ==> InRange(processes, t)
    ensures best in candidates
    ensures forall u :: u in candidates && u != best ==> Beats(pred, processes, best, u)
    decreases |candidates|
  {
    var t :| t in candidates;
    if candidates == {t} {
      best := t;
    } else {
      var other := BestOf(pred, processes, candidates - {t});
      best := if Beats(pred, processes, t, other) then t else other;
      forall u | u in candidates && u != best
        ensures Beats(pred, processes, best, u)
      {
        if u != other && u != t {
          assert Beats(pred, processes, other, u);
        }
      }
    }
  }

  // ----- what selection depends on -----

  /** Same processes and regions, up to the bytes and the sharing of pages. */
  ghost predicate SameShape(a: Processes, b: Processes) {
    && |a| == |b|
    && (forall i :: 0 <= i < |a| ==>
          a[i].name == b[i].name && a[i].optIn == b[i].optIn && |a[i].regions| == |b[i].regions|)
    && (forall t :: InRange(a, t) && InRange(b, t) ==>
          RegionAt(a, t).name == RegionAt(b, t).name && |RegionAt(a, t).pages| == |RegionAt(b, t).pages|)
  }

  lemma SameShapeSameBest(pred: Predictor, a: Processes, b: Processes, t: Target)
    requires SameShape(a, b)
    ensures IsBest(pred, a, t) <==> IsBest(pred, b, t)
  {
    forall u
      ensures InRange(a, u) <==> InRange(b, u)
      ensures IsCandidate(a, u) <==> IsCandidate(b, u)
      ensures InRange(a, u) ==> Score(pred, a, u) == Score(pred, b, u)
    {}
  }

  lemma SameShapeSameSelection(pred: Predictor, a: Processes, b: Processes)
    requires SameShape(a, b)
    ensures Selection(pred, a) == Selection(pred, b)
  {
    forall t
      ensures IsBest(pred, a, t) <==> IsBest(pred, b, t)
    {
      SameShapeSameBest(pred, a, b, t);
    }
    if t :| IsBest(pred, a, t) {
      BestIsUnique(pred, a, t, Selection(pred, a).value);
      BestIsUnique(pred, b, t, Selection(pred, b).value);
    }
  }

  // ----- scanning the selected region -----

  function WithRegion(processes: Processes, t: Target, region: RegionValue): Processes
    requires InRange(processes, t)
  {
    processes[t.process := processes[t.process].(regions := processes[t.process].regions[t.region := region])]
  }

  lemma WithRegionAt(processes: Processes, t: Target, region: RegionValue, u: Target)
    requires InRange(processes, t)
    ensures InRange(WithRegion(processes, t, region), u) <==> InRange(processes, u)
    ensures InRange(processes, u) ==>
              RegionAt(WithRegion(processes, t, region), u) == if u == t then region else RegionAt(processes, u)
  {}

  function WithScanned(processes: Processes, t: Target): Processes
    requires InRange(processes, t)
  {
    WithRegion(processes, t, ScannedRegion(RegionAt(processes, t)))
  }

  lemma WithScannedSameShape(processes: Processes, t: Target)
    requires InRange(processes, t)
    ensures SameShape(processes, WithScanned(processes, t))
  {
    forall u | InRange(processes, u)
      ensures RegionAt(WithScanned(processes, t), u).name == RegionAt(processes, u).name
      ensures |RegionAt(WithScanned(processes, t), u).pages| == |RegionAt(processes, u).pages|
    {
      WithRegionAt(processes, t, ScannedRegion(RegionAt(processes, t)), u);
    }
  }

  /** Every region is fit to be scanned. */
  ghost predicate AllScannable(processes: Processes, sig: Signer) {
    forall t :: InRange(processes, t) ==> Scannable(RegionAt(processes, t), sig)
  }

  lemma WithScannedKeepsScannable(processes: Processes, sig: Signer, t: Target)
    requires InRange(processes, t) && AllScannable(processes, sig)
    ensures AllScannable(WithScanned(processes, t), sig)
  {
    var region := RegionAt(processes, t);
    assert Scannable(ScannedRegion(region), sig) by {
      if region.optIn {
        forall i: nat | Unshared(Scanned(region.pages), i)
          ensures sig.requires(Scanned(region.pages)[i].data)
        {
          assert Unshared(region.pages, i);
        }
      }
    }
    forall u | InRange(WithScanned(processes, t), u)
      ensures Scannable(RegionAt(WithScanned(processes, t), u), sig)
    {
      WithRegionAt(processes, t, ScannedRegion(region), u);
    }
  }

  // ----- iterations without interference -----

  datatype SchedulerValue = SchedulerValue(processes: Processes, stats: Stats)

  /** One uninterrupted call of `scanNextCandidate`. */
  ghost function Next(pred: Predictor, sig: Signer, s: SchedulerValue): SchedulerValue
    requires AllScannable(s.processes, sig)
  {
    match Selection(pred, s.processes)
    case None => s
    case Some(t) =>
      SchedulerValue(WithScanned(s.processes, t), ScanStats(RegionAt(s.processes, t), sig, s.stats))
  }

  lemma NextKeepsScannable(pred: Predictor, sig: Signer, s: SchedulerValue)
    requires AllScannable(s.processes, sig)
    ensures AllScannable(Next(pred, sig, s).processes, sig)
    ensures SameShape(s.processes, Next(pred, sig, s).processes)
  {
    match Selection(pred, s.processes) {
      case None =>
      case Some(t) =>
        WithScannedKeepsScannable(s.processes, sig, t);
        WithScannedSameShape(s.processes, t);
    }
  }

  ghost function Iterated(pred: Predictor, sig: Signer, s: SchedulerValue, k: nat): (r: SchedulerValue)
    requires AllScannable(s.processes, sig)
    ensures AllScannable(r.processes, sig)
  {
    if k == 0 then s
    else
      var r := Iterated(pred, sig, s, k - 1);
      NextKeepsScannable(pred, sig, r);
      Next(pred, sig, r)
  }

  /** The counters after k iterations on an opted-in region with n unshared pages holding u
      distinct contents. */
  ghost predicate CountedAfter(before: Stats, after: Stats, n: nat, u: nat, k: nat) {
    && after.pagesScanned == before.pagesScanned + n + (k - 1) * u
    && after.uniquePages == before.uniquePages + k * u
    && after.duplicatePages == before.duplicatePages + n - u
  }

  /** With no process added, every iteration selects the same region, the process list no
      longer changes from the second iteration on, and the counters grow by the stated law. */
  lemma {:induction false} IterationsReachFixpoint(pred: Predictor, sig: Signer, s: SchedulerValue, t: Target, k: nat)
    requires AllScannable(s.processes, sig) && Selection(pred, s.processes) == Some(t) && k >= 1
    requires WellFormed(RegionAt(s.processes, t).pages)
    ensures var r := Iterated(pred, sig, s, k);
            var region := RegionAt(s.processes, t);
            var n, u := UnsharedUpTo(region.pages, |region.pages|), |UnsharedContents(region.pages, |region.pages|)|;
            && Selection(pred, r.processes) == Some(t)
            && r.processes == WithScanned(s.processes, t)
            && (region.optIn ==> CountedAfter(s.stats, r.stats, n, u, k))
            && (!region.optIn ==> r == s)
  {
    var region := RegionAt(s.processes, t);
    var once := WithScanned(s.processes, t);
    WithScannedSameShape(s.processes, t);
    SameShapeSameSelection(pred, s.processes, once);
    ScanTwice(s.processes, t);
    var before := Iterated(pred, sig, s, k - 1);
    if k == 1 {
      assert before == s;
      FirstScanCounts(region, sig, s.stats);
    } else {
      IterationsReachFixpoint(pred, sig, s, t, k - 1);
      assert Scannable(RegionAt(before.processes, t), sig);
      RescanCounts(region, sig, s.stats, before.stats, k);
    }
    assert Iterated(pred, sig, s, k) == Next(pred, sig, before);
    hide WithScanned, ScanStats, UnsharedUpTo, UnsharedContents, CountedAfter, WellFormed, SameShape;
  }

  lemma FirstScanCounts(region: RegionValue, sig: Signer, stats: Stats)
    requires WellFormed(region.pages) && Scannable(region, sig)
    ensures region.optIn ==>
              CountedAfter(stats, ScanStats(region, sig, stats), UnsharedUpTo(region.pages, |region.pages|),
                           |UnsharedContents(region.pages, |region.pages|)|, 1)
    ensures !region.optIn ==> ScanStats(region, sig, stats) == stats
  {
    if region.optIn {
      ScanDeltas(region.pages, sig, stats);
    }
  }

  lemma RescanCounts(region: RegionValue, sig: Signer, first: Stats, stats: Stats, k: nat)
    requires WellFormed(region.pages) && Scannable(ScannedRegion(region), sig) && k >= 2
    ensures var n, u := UnsharedUpTo(region.pages, |region.pages|), |UnsharedContents(region.pages, |region.pages|)|;
            region.optIn && CountedAfter(first, stats, n, u, k - 1) ==>
              CountedAfter(first, ScanStats(ScannedRegion(region), sig, stats), n, u, k)
    ensures !region.optIn ==> ScanStats(ScannedRegion(region), sig, stats) == stats
  {
    if region.optIn {
      var u := |UnsharedContents(region.pages, |region.pages|)|;
      RescanDeltas(region.pages);
      ScanKeepsWellFormed(region.pages);
      ScanDeltas(Scanned(region.pages), sig, stats);
      assert (k - 1) * u == (k - 2) * u + u && k * u == (k - 1) * u + u;
      hide UnsharedUpTo, UnsharedContents, ScanStatsUpTo, WellFormed;
    }
  }

  lemma ScanTwice(processes: Processes, t: Target)
    requires InRange(processes, t)
    ensures RegionAt(WithScanned(processes, t), t) == ScannedRegion(RegionAt(processes, t))
    ensures WithScanned(WithScanned(processes, t), t) == WithScanned(processes, t)
    ensures !RegionAt(processes, t).optIn ==> WithScanned(processes, t) == processes
  {
    var region := RegionAt(processes, t);
    ScanIsIdempotent(region.pages);
    WithRegionTwice(processes, t, ScannedRegion(region), ScannedRegion(ScannedRegion(region)));
    WithRegionTwice(processes, t, region, region);
  }

  lemma WithRegionTwice(processes: Processes, t: Target, first: RegionValue, second: RegionValue)
    requires InRange(processes, t)
    ensures InRange(WithRegion(processes, t, first), t)
    ensures WithRegion(WithRegion(processes, t, first), t, second) == WithRegion(processes, t, second)
    ensures WithRegion(processes, t, RegionAt(processes, t)) == processes
  {
    var process := processes[t.process];
    assert process.regions[t.region := first][t.region := second] == process.regions[t.region := second];
    assert process.regions[t.region := RegionAt(processes, t)] == process.regions;
  }
}
