/** What a run adds to each counter of the engine, counted on sets of pages. */
module RunCounters {
  import opened Pages
  import opened Partition
  import opened Buckets
  import opened Operations
  import opened Runs

  // ----- counting with sets -----

  ghost function UnsharedIndices(pages: PageList, n: nat): set<nat> {
    set i: nat | i < n && i < |pages| && !pages[i].shared
  }

  lemma {:induction false} UnsharedAreCounted(pages: PageList, n: nat)
    requires n <= |pages|
    ensures UnsharedUpTo(pages, n) == |UnsharedIndices(pages, n)|
  {
    if n == 0 {
      assert UnsharedIndices(pages, 0) == {};
    } else {
      UnsharedAreCounted(pages, n - 1);
      assert UnsharedIndices(pages, n)
          == UnsharedIndices(pages, n - 1) + (if pages[n - 1].shared then {} else {n - 1});
    }
  }

  /** An unshared page with no unshared page of the same bytes before it. */
  ghost predicate IsFirst(pages: PageList, k: nat) {
    k < |pages| && !pages[k].shared && forall j: nat :: j < k && !pages[j].shared ==> pages[j].data != pages[k].data
  }

  /** Each unshared page among the first n with each first page before it that has its signature. */
  ghost function ProbePairs(pages: PageList, sig: Signer, n: nat): set<(nat, nat)>
    requires n <= |pages| && Signable(pages, sig)
  {
    set i: nat, k: nat | i < n && k < i && ProbedBy(pages, sig, i, k) :: (i, k)
  }

  ghost predicate ProbedBy(pages: PageList, sig: Signer, i: nat, k: nat)
    requires i < |pages| && Signable(pages, sig)
  {
    Unshared(pages, i) && IsFirst(pages, k) && Unshared(pages, k) && sig(pages[k].data) == sig(pages[i].data)
  }

  lemma FirstIsRepresentative(pages: PageList, k: nat)
    ensures IsFirst(pages, k) <==> IsRepresentative(pages, k)
  {
    if Unshared(pages, k) {
      TwinIsRepresentative(pages, k);
    }
  }

  lemma {:induction false} DistinctMembers(s: seq<nat>, i: nat, pairs: set<(nat, nat)>)
    requires forall x, y :: 0 <= x < y < |s| ==> s[x] < s[y]
    requires forall p :: p in pairs <==> p.0 == i && p.1 in s
    ensures |pairs| == |s|
  {
    if s == [] {
      assert pairs == {};
    } else {
      var n := |s| - 1;
      assert forall k :: k in s <==> k in s[..n] || k == s[n];
      DistinctMembers(s[..n], i, pairs - {(i, s[n])});
    }
  }

  lemma PairsOfPage(pages: PageList, sig: Signer, n: nat)
    requires n < |pages| && Signable(pages, sig)
    ensures |ProbePairs(pages, sig, n + 1)|
         == |ProbePairs(pages, sig, n)| + (if Unshared(pages, n) then |BucketAt(pages, sig, n)| else 0)
  {
    hide IsFirst, Bucket, Twin;
    var before, after := ProbePairs(pages, sig, n), ProbePairs(pages, sig, n + 1);
    var last := set k: nat | k < n && ProbedBy(pages, sig, n, k) :: (n, k);
    assert after == before + last && before * last == {};
    if Unshared(pages, n) {
      forall p
        ensures p in last <==> p.0 == n && p.1 in BucketAt(pages, sig, n)
      {
        FirstIsRepresentative(pages, p.1);
      }
      DistinctMembers(BucketAt(pages, sig, n), n, last);
    } else {
      assert last == {};
    }
  }

  /** The probes of a scan are exactly those pairs: every list met is counted whole. */
  lemma {:induction false} ProbesArePairs(pages: PageList, sig: Signer, n: nat)
    requires n <= |pages| && Signable(pages, sig)
    ensures ProbesUpTo(pages, sig, n) == |ProbePairs(pages, sig, n)|
  {
    hide ProbePairs, BucketAt, Signable;
    if n == 0 {
      NoPairs(pages, sig);
    } else {
      ProbesArePairs(pages, sig, n - 1);
      PairsOfPage(pages, sig, n - 1);
    }
  }

  lemma NoPairs(pages: PageList, sig: Signer)
    requires Signable(pages, sig)
    ensures ProbePairs(pages, sig, 0) == {}
  {}

  // ----- one operation -----

  /** A write counts itself and its copy, and leaves the counters of scans alone. */
  lemma WriteLeavesScanCounters(pages: PageList, index: nat, stats: Stats)
    ensures var after := WriteStats(pages, index, stats);
            && after.pagesScanned == stats.pagesScanned
            && after.duplicatePages == stats.duplicatePages
            && after.uniquePages == stats.uniquePages
            && after.bytesSaved == stats.bytesSaved
            && after.collisionProbes == stats.collisionProbes
            && after.writesEmulated == stats.writesEmulated + (if index < |pages| then 1 else 0)
            && after.writeCowEvents
               == stats.writeCowEvents + (if index < |pages| && pages[index].shared then 1 else 0)
  {}

  /** A write leaves the other pages alone and its page unshared, without a home if it had been
      shared, and with whatever home it carried if not. */
  lemma WriteLeavesHomes(pages: PageList, index: nat, value: bv8, i: nat)
    requires i < |pages|
    ensures var after := WrittenPages(pages, index, value);
            && |after| == |pages|
            && (i != index ==> after[i] == pages[i])
            && (i == index ==> !after[i].shared)
            && (i == index && pages[i].shared ==> after[i].homeIndex == 0xFFFF_FFFF_FFFF_FFFF)
            && (i == index && !pages[i].shared ==> after[i].homeIndex == pages[i].homeIndex)
  {}

  /** Pages scanned, distinct contents among them, repeats, and candidates met. */
  datatype Added = Added(scanned: int, unique: int, repeats: int, probes: int)

  function Sum(a: Added, b: Added): Added {
    Added(a.scanned + b.scanned, a.unique + b.unique, a.repeats + b.repeats, a.probes + b.probes)
  }

  const NOTHING := Added(0, 0, 0, 0)

  ghost function AddedByScan(region: RegionValue, sig: Signer): Added
    requires Scannable(region, sig)
  {
    if !region.optIn then NOTHING
    else
      var unshared := UnsharedIndices(region.pages, |region.pages|);
      var contents := set i | i in unshared :: region.pages[i].data;
      Added(|unshared|, |contents|, |unshared| - |contents|, |ProbePairs(region.pages, sig, |region.pages|)|)
  }

  /** The counters of scans after some counts were added to them. */
  ghost predicate Counts(before: Stats, added: Added, after: Stats) {
    && after.pagesScanned == before.pagesScanned + added.scanned
    && after.uniquePages == before.uniquePages + added.unique
    && after.duplicatePages == before.duplicatePages + added.repeats
    && after.bytesSaved == before.bytesSaved + 4096 * added.repeats
    && after.collisionProbes == before.collisionProbes + added.probes
  }

  lemma ScanCounts(region: RegionValue, sig: Signer, stats: Stats)
    requires WellFormed(region.pages) && Scannable(region, sig)
    ensures var after := ScanStats(region, sig, stats);
            && Counts(stats, AddedByScan(region, sig), after)
            && after.writesEmulated == stats.writesEmulated && after.writeCowEvents == stats.writeCowEvents
  {
    if region.optIn {
      var pages, n := region.pages, |region.pages|;
      ScanDeltas(pages, sig, stats);
      UnsharedAreCounted(pages, n);
      ProbesArePairs(pages, sig, n);
      var unshared := UnsharedIndices(pages, n);
      assert (set i | i in unshared :: pages[i].data) == UnsharedContents(pages, n);
    }
    hide UnsharedIndices, UnsharedContents, UnsharedUpTo, ProbesUpTo, ProbePairs, ScanStatsUpTo, WellFormed;
  }

  // ----- over every run -----

  /** What the scans of a run add, each counted on the pages it finds. */
  ghost function AddedByScans(sig: Signer, s: EngineState, ops: seq<Op>): Added
    requires IsRun(sig, s, ops)
    decreases |ops|
  {
    if ops == [] then NOTHING
    else
      Sum(if ops[0].Scan? then AddedByScan(s.regions[ops[0].region], sig) else NOTHING,
          AddedByScans(sig, Apply(sig, s, ops[0]), ops[1..]))
  }

  lemma StepCounts(sig: Signer, s: EngineState, op: Op)
    requires Invariant(s) && Enabled(sig, s, op)
    ensures Counts(s.stats, if op.Scan? then AddedByScan(s.regions[op.region], sig) else NOTHING,
                   Apply(sig, s, op).stats)
  {
    hide AddedByScan, ScanStats, WriteStats, WellFormed, TotalShared;
    match op
    case Scan(k) => ScanCounts(s.regions[k], sig, s.stats);
    case Write(k, page, _) => WriteLeavesScanCounters(s.regions[k].pages, page, s.stats);
  }

  lemma CountsAddUp(before: Stats, a: Added, middle: Stats, b: Added, after: Stats)
    requires Counts(before, a, middle) && Counts(middle, b, after)
    ensures Counts(before, Sum(a, b), after)
  {}

  /** Over every run each counter of scans grows by exactly what its scans add; writes add nothing. */
  lemma {:induction false} RunAddsItsScans(sig: Signer, s: EngineState, ops: seq<Op>)
    requires Invariant(s) && IsRun(sig, s, ops)
    ensures Counts(s.stats, AddedByScans(sig, s, ops), Final(sig, s, ops).stats)
    decreases |ops|
  {
    if ops == [] {
      return;
    }
    hide Counts, AddedByScan, Invariant, Apply, Enabled;
    var s' := Apply(sig, s, ops[0]);
    StepKeepsInvariant(sig, s, ops[0]);
    StepCounts(sig, s, ops[0]);
    RunAddsItsScans(sig, s', ops[1..]);
    CountsAddUp(s.stats, if ops[0].Scan? then AddedByScan(s.regions[ops[0].region], sig) else NOTHING, s'.stats,
                AddedByScans(sig, s', ops[1..]), Final(sig, s, ops).stats);
  }
}
