/** The scheduler's fields and loops (`user/scan_scheduler.cpp`), run by one thread. */
module Scheduler {
  import opened Pages
  import opened Operations
  import opened Engine
  import opened Scheduling

  /** Vector sizes fit `size_t`, so no index equals the sentinel. */
  ghost predicate Bounded(processes: Processes) {
    && |processes| <= SIZE_MAX
    && (forall i :: 0 <= i < |processes| ==> |processes[i].regions| <= SIZE_MAX)
    && (forall t :: InRange(processes, t) ==> |RegionAt(processes, t).pages| <= SIZE_MAX)
  }

  /** The reasons the predictor gave, in the order they are streamed. */
  function Detail(pred: Predictor, processes: Processes, t: Target): string
    requires InRange(processes, t)
  {
    var p, r := processes[t.process], RegionAt(processes, t);
    pred.process(p.name, |p.regions|).reason + pred.region(r.name, |r.pages|).reason
  }

  /** The best candidate that precedes `limit`, held in two indices and a score. */
  ghost predicate BestBefore(pred: Predictor, processes: Processes, limit: Target,
                             score: real, process: nat, region: nat, detail: string) {
    if process == SIZE_MAX then
      region == SIZE_MAX && score == -1.0 && forall u :: IsCandidate(processes, u) ==> !Precedes(u, limit)
    else
      var best := Target(process, region);
      && IsCandidate(processes, best) && Precedes(best, limit)
      && score == Score(pred, processes, best) && detail == Detail(pred, processes, best)
      && forall u :: IsCandidate(processes, u) && Precedes(u, limit) && u != best ==> Beats(pred, processes, best, u)
  }

  lemma ConsiderRegion(pred: Predictor, processes: Processes, i: nat, j: nat,
                       score: real, process: nat, region: nat, detail: string)
    requires Bounded(processes) && Clamped(pred) && IsCandidate(processes, Target(i, j))
    requires BestBefore(pred, processes, Target(i, j), score, process, region, detail)
    ensures var t := Target(i, j);
            if Score(pred, processes, t) > score
            then BestBefore(pred, processes, Target(i, j + 1), Score(pred, processes, t), i, j,
                            Detail(pred, processes, t))
            else BestBefore(pred, processes, Target(i, j + 1), score, process, region, detail)
  {
    var t := Target(i, j);
    assert Score(pred, processes, t) >= 0.0;
    forall u | IsCandidate(processes, u) && Precedes(u, Target(i, j + 1))
      ensures u == t || Precedes(u, t)
    {
      assert u == Target(u.process, u.region);
    }
  }

  lemma NextProcess(pred: Predictor, processes: Processes, i: nat, j: nat,
                    score: real, process: nat, region: nat, detail: string)
    requires i < |processes| && BestBefore(pred, processes, Target(i, j), score, process, region, detail)
    requires !processes[i].optIn || j == |processes[i].regions|
    ensures BestBefore(pred, processes, Target(i + 1, 0), score, process, region, detail)
  {
    forall u | IsCandidate(processes, u) && Precedes(u, Target(i + 1, 0))
      ensures Precedes(u, Target(i, j))
    {}
  }

  lemma AllConsidered(pred: Predictor, processes: Processes, score: real, process: nat, region: nat, detail: string)
    requires Bounded(processes) && BestBefore(pred, processes, Target(|processes|, 0), score, process, region, detail)
    ensures match Selection(pred, processes)
            case None => process == region == SIZE_MAX
            case Some(t) => t == Target(process, region) && process != SIZE_MAX && region != SIZE_MAX
                            && detail == Detail(pred, processes, t)
  {
    SelectionExists(pred, processes);
    assert forall u :: IsCandidate(processes, u) ==> Precedes(u, Target(|processes|, 0));
    if process != SIZE_MAX {
      var best := Target(process, region);
      assert IsBest(pred, processes, best);
      BestIsUnique(pred, processes, best, Selection(pred, processes).value);
    }
  }

  /** The selection in the predictor's own terms, over indices. */
  lemma SelectionMeans(pred: Predictor, processes: Processes, process: nat, region: nat)
    requires match Selection(pred, processes)
             case None => process == SIZE_MAX
             case Some(t) => t == Target(process, region) && process != SIZE_MAX
    ensures process != SIZE_MAX <==>
              exists i :: 0 <= i < |processes| && processes[i].optIn && processes[i].regions != []
    ensures process != SIZE_MAX ==> IsCandidate(processes, Target(process, region))
    ensures process != SIZE_MAX ==>
              forall i, j :: 0 <= i < |processes| && 0 <= j < |processes[i].regions| && processes[i].optIn ==>
                var p, r := processes[process], processes[process].regions[region];
                var q, c := processes[i], processes[i].regions[j];
                var mine := pred.process(p.name, |p.regions|).score + pred.region(r.name, |r.pages|).score;
                var other := pred.process(q.name, |q.regions|).score + pred.region(c.name, |c.pages|).score;
                && mine >= other
                && (i < process || (i == process && j < region) ==> mine > other)
  {
    SelectionExists(pred, processes);
    hide Score, Beats, IsBest;
    if i :| 0 <= i < |processes| && processes[i].optIn && processes[i].regions != [] {
      assert IsCandidate(processes, Target(i, 0));
    }
    if process != SIZE_MAX {
      var t := Target(process, region);
      assert IsBest(pred, processes, t);
      BestIsCandidate(pred, processes, t);
      BestByPredictions(pred, processes, t);
      forall i, j | 0 <= i < |processes| && 0 <= j < |processes[i].regions| && processes[i].optIn
        ensures var p, r := processes[process], processes[process].regions[region];
                var q, c := processes[i], processes[i].regions[j];
                var mine := pred.process(p.name, |p.regions|).score + pred.region(r.name, |r.pages|).score;
                var other := pred.process(q.name, |q.regions|).score + pred.region(c.name, |c.pages|).score;
                mine >= other && (i < process || (i == process && j < region) ==> mine > other)
      {
        var u := Target(i, j);
        assert IsCandidate(processes, u) && u.process == i && u.region == j;
      }
    }
  }

  lemma NextKeepsBounded(pred: Predictor, sig: Signer, s: SchedulerValue)
    requires AllScannable(s.processes, sig) && Bounded(s.processes)
    ensures Bounded(Next(pred, sig, s).processes)
  {
    NextKeepsScannable(pred, sig, s);
  }

  class ScanScheduler {
    const pred: Predictor
    const engine: DedupeEngine
    var processes: Processes
    var running: bool
    var scanRequested: bool
    var scoreDetail: string

    constructor (engine: DedupeEngine, pred: Predictor)
      ensures this.engine == engine && this.pred == pred
      ensures processes == [] && !running && !scanRequested && scoreDetail == ""
    {
      this.engine := engine;
      this.pred := pred;
      processes := [];
      running := false;
      scanRequested := false;
      scoreDetail := "";
    }

    ghost function Value(): SchedulerValue
      reads this, engine
    {
      SchedulerValue(processes, engine.stats)
    }

    /** What the scans rely on: bounded vectors and pages whose samples lie inside them. */
    ghost predicate Valid()
      reads this
    {
      Clamped(pred) && Bounded(processes) && AllScannable(processes, engine.sig)
    }

    method AddProcess(process: ProcessState)
      modifies this`processes
      ensures processes == old(processes) + [process]
    {
      processes := processes + [process];
    }

    method SnapshotProcesses() returns (seen: Processes)
      ensures seen == processes
    {
      seen := processes;
    }

    /** The first locked section: two nested loops keeping the best score so far. */
    method SelectCandidate() returns (bestProcess: nat, bestRegion: nat, bestDetail: string)
      requires Clamped(pred) && Bounded(processes)
      ensures match Selection(pred, processes)
              case None => bestProcess == bestRegion == SIZE_MAX
              case Some(t) => t == Target(bestProcess, bestRegion) && bestProcess != SIZE_MAX && bestRegion != SIZE_MAX
                              && bestDetail == Detail(pred, processes, t)
      ensures bestProcess != SIZE_MAX <==>
                exists i :: 0 <= i < |processes| && processes[i].optIn && processes[i].regions != []
      ensures bestProcess != SIZE_MAX ==>
                && bestProcess < |processes| && bestRegion < |processes[bestProcess].regions|
                && processes[bestProcess].optIn
      ensures bestProcess != SIZE_MAX ==>
                forall i, j :: 0 <= i < |processes| && 0 <= j < |processes[i].regions| && processes[i].optIn ==>
                  var p, r := processes[bestProcess], processes[bestProcess].regions[bestRegion];
                  var q, c := processes[i], processes[i].regions[j];
                  var mine := pred.process(p.name, |p.regions|).score + pred.region(r.name, |r.pages|).score;
                  var other := pred.process(q.name, |q.regions|).score + pred.region(c.name, |c.pages|).score;
                  && mine >= other
                  && (i < bestProcess || (i == bestProcess && j < bestRegion) ==> mine > other)
      ensures bestProcess != SIZE_MAX ==>
                var p, r := processes[bestProcess], processes[bestProcess].regions[bestRegion];
                bestDetail == pred.process(p.name, |p.regions|).reason + pred.region(r.name, |r.pages|).reason
    {
      var bestScore := -1.0;
      bestProcess, bestRegion, bestDetail := SIZE_MAX, SIZE_MAX, "";
      for i := 0 to |processes|
        invariant BestBefore(pred, processes, Target(i, 0), bestScore, bestProcess, bestRegion, bestDetail)
      {
        var process := processes[i];
        if !process.optIn {
          NextProcess(pred, processes, i, 0, bestScore, bestProcess, bestRegion, bestDetail);
          continue;
        }
        var processPrediction := pred.process(process.name, |process.regions|);
        for j := 0 to |process.regions|
          invariant BestBefore(pred, processes, Target(i, j), bestScore, bestProcess, bestRegion, bestDetail)
        {
          var region := process.regions[j];
          var regionPrediction := pred.region(region.name, |region.pages|);
          var score := (processPrediction.score + regionPrediction.score) / 2.0;
          ConsiderRegion(pred, processes, i, j, bestScore, bestProcess, bestRegion, bestDetail);
          if score > bestScore {
            bestScore := score;
            bestProcess, bestRegion := i, j;
            bestDetail := processPrediction.reason + regionPrediction.reason;
          }
        }
        NextProcess(pred, processes, i, |process.regions|, bestScore, bestProcess, bestRegion, bestDetail);
      }
      AllConsidered(pred, processes, bestScore, bestProcess, bestRegion, bestDetail);
      SelectionMeans(pred, processes, bestProcess, bestRegion);
    }

    /** Selection, copy, scan of the copy, write-back, with nobody in between. */
    method ScanNextCandidate()
      requires Valid()
      modifies this`processes, this`scoreDetail, engine`stats
      ensures Valid() && Value() == Next(pred, engine.sig, old(Value()))
      ensures scoreDetail == match Selection(pred, old(processes))
                             case None => old(scoreDetail)
                             case Some(t) => Detail(pred, old(processes), t)
    {
      NextKeepsScannable(pred, engine.sig, Value());
      NextKeepsBounded(pred, engine.sig, Value());
      var bestProcess, bestRegion, bestDetail := SelectCandidate();
      if bestProcess == SIZE_MAX || bestRegion == SIZE_MAX {
        return;
      }
      ghost var t := Target(bestProcess, bestRegion);
      assert IsBest(pred, processes, t);
      assert Scannable(RegionAt(processes, t), engine.sig) && |RegionAt(processes, t).pages| <= SIZE_MAX;
      var targetRegion := new MemoryRegion(processes[bestProcess].regions[bestRegion]);
      engine.ScanRegion(targetRegion);
      var scanned := targetRegion.Value();
      var process := processes[bestProcess];
      processes := processes[bestProcess := process.(regions := process.regions[bestRegion := scanned])];
      scoreDetail := bestDetail;
    }

    /** The worker, stopped after a number of wake-ups. */
    method WorkerLoop(wakeUps: nat)
      requires Valid() && running
      modifies this`processes, this`scoreDetail, this`running, this`scanRequested, engine`stats
      ensures Valid() && !running && Value() == Iterated(pred, engine.sig, old(Value()), wakeUps)
    {
      var woken := 0;
      while running
        invariant running && woken <= wakeUps
        invariant Valid() && Value() == Iterated(pred, engine.sig, old(Value()), woken)
        decreases wakeUps - woken
      {
        if woken == wakeUps {
          running := false;  // stop() is called while the worker waits
        }
        if !running {
          break;
        }
        scanRequested := false;
        woken := woken + 1;
        if processes == [] {
          SelectionExists(pred, processes);
          continue;
        }
        ScanNextCandidate();
      }
    }
  }
}
