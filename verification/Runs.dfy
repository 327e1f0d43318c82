/** What every run of scans and writes keeps. */
module Runs {
  import opened Pages
  import opened Partition
  import opened Buckets
  import opened Operations

  // ----- homes -----

  /** A page is shared exactly when it has a home, and its home precedes it. */
  ghost predicate WellFormed(pages: PageList) {
    && |pages| <= SIZE_MAX
    && forall i :: 0 <= i < |pages| ==>
         (pages[i].shared <==> pages[i].homeIndex != SIZE_MAX) && (pages[i].shared ==> pages[i].homeIndex < i)
  }

  lemma FreshIsWellFormed(pages: PageList)
    requires FreshPages(pages)
    ensures WellFormed(pages) && SharedCount(pages) == 0
  {
    AllUnshared(pages, |pages|);
  }

  lemma {:induction false} AllUnshared(pages: PageList, n: nat)
    requires n <= |pages| && forall i :: 0 <= i < |pages| ==> !pages[i].shared
    ensures UnsharedUpTo(pages, n) == n
  {
    if n > 0 {
      AllUnshared(pages, n - 1);
    }
  }

  lemma ScanKeepsWellFormed(pages: PageList)
    requires WellFormed(pages)
    ensures WellFormed(Scanned(pages))
  {}

  lemma WriteKeepsWellFormed(pages: PageList, index: nat, value: bv8)
    requires WellFormed(pages)
    ensures WellFormed(WrittenPages(pages, index, value))
  {}

  /** So `mergePage` never takes its early return. */
  lemma WellFormedHasNoStaleHome(pages: PageList)
    requires WellFormed(pages)
    ensures NoStaleHome(pages)
  {}

  // ----- counting shared pages -----

  lemma {:induction false} UnsharedAfterUpdate(pages: PageList, index: nat, page: PageValue, n: nat)
    requires index < |pages| && n <= |pages|
    ensures UnsharedUpTo(pages[index := page], n) == UnsharedUpTo(pages, n)
      + (if index < n then (if pages[index].shared then 1 else 0) - (if page.shared then 1 else 0) else 0)
  {
    if n > 0 {
      UnsharedAfterUpdate(pages, index, page, n - 1);
    }
  }

  lemma WriteUnshares(pages: PageList, index: nat, value: bv8)
    ensures SharedCount(WrittenPages(pages, index, value))
         == SharedCount(pages) - (if index < |pages| && pages[index].shared then 1 else 0)
  {
    if index < |pages| {
      UnsharedAfterUpdate(pages, index, WrittenPage(pages[index], value), |pages|);
    }
  }

  ghost function TotalShared(regions: seq<RegionValue>): nat {
    if regions == [] then 0 else TotalShared(regions[..|regions| - 1]) + SharedCount(regions[|regions| - 1].pages)
  }

  lemma {:induction false} TotalAfterUpdate(regions: seq<RegionValue>, k: nat, region: RegionValue)
    requires k < |regions|
    ensures TotalShared(regions[k := region]) + SharedCount(regions[k].pages)
         == TotalShared(regions) + SharedCount(region.pages)
  {
    var n := |regions| - 1;
    if k < n {
      TotalAfterUpdate(regions[..n], k, region);
      assert regions[k := region][..n] == regions[..n][k := region];
    } else {
      assert regions[k := region][..n] == regions[..n];
    }
  }

  // ----- the invariant -----

  ghost predicate Invariant(s: EngineState) {
    && (forall r :: 0 <= r < |s.regions| ==> WellFormed(s.regions[r].pages))
    && s.stats.pagesScanned == s.stats.uniquePages + s.stats.duplicatePages
    && s.stats.bytesSaved == PAGE_SIZE * s.stats.duplicatePages
    && TotalShared(s.regions) + s.stats.writeCowEvents == s.stats.duplicatePages
    && s.stats.writeCowEvents <= s.stats.writesEmulated
  }

  ghost predicate Fresh(s: EngineState) {
    s.stats == ZERO_STATS && forall r :: 0 <= r < |s.regions| ==> FreshPages(s.regions[r].pages)
  }

  lemma {:induction false} FreshSatisfiesInvariant(s: EngineState)
    requires Fresh(s)
    ensures Invariant(s)
    decreases |s.regions|
  {
    forall r | 0 <= r < |s.regions|
      ensures WellFormed(s.regions[r].pages)
    {
      FreshIsWellFormed(s.regions[r].pages);
    }
    if s.regions != [] {
      var n := |s.regions| - 1;
      FreshSatisfiesInvariant(EngineState(s.regions[..n], s.stats));
      FreshIsWellFormed(s.regions[n].pages);
    }
  }

  /** The exact growth of every counter in one scan of an opted-in region: n unshared pages,
      u distinct contents among them. */
  lemma ScanDeltas(pages: PageList, sig: Signer, stats: Stats)
    requires WellFormed(pages) && Signable(pages, sig)
    ensures var n, u := UnsharedUpTo(pages, |pages|), |UnsharedContents(pages, |pages|)|;
            var after := ScanStatsUpTo(pages, sig, |pages|, stats);
            && u <= n
            && after.pagesScanned == stats.pagesScanned + n
            && after.uniquePages == stats.uniquePages + u
            && after.duplicatePages == stats.duplicatePages + (n - u)
            && after.bytesSaved == stats.bytesSaved + PAGE_SIZE * (n - u)
            && after.collisionProbes == stats.collisionProbes + ProbesUpTo(pages, sig, |pages|)
            && after.writesEmulated == stats.writesEmulated && after.writeCowEvents == stats.writeCowEvents
            && SharedCount(Scanned(pages)) == SharedCount(pages) + (n - u)
  {
    WellFormedHasNoStaleHome(pages);
    RepresentativesAreContents(pages, |pages|);
    MergedAreTheRest(pages, |pages|);
    ScannedUnshared(pages, |pages|);
    hide UnsharedUpTo, RepresentativesUpTo, MergedUpTo, ProbesUpTo, UnsharedContents;
  }

  /** A scanned region is a fixpoint: scanning it again visits u pages, all unique. */
  lemma RescanDeltas(pages: PageList)
    requires WellFormed(pages)
    ensures var u := |UnsharedContents(pages, |pages|)|;
            && UnsharedUpTo(Scanned(pages), |pages|) == u
            && |UnsharedContents(Scanned(pages), |pages|)| == u
  {
    var after := Scanned(pages);
    WellFormedHasNoStaleHome(pages);
    RepresentativesAreContents(pages, |pages|);
    MergedAreTheRest(pages, |pages|);
    ScannedUnshared(pages, |pages|);
    ScanKeepsWellFormed(pages);
    WellFormedHasNoStaleHome(after);
    RepresentativesAreContents(after, |pages|);
    MergedAreTheRest(after, |pages|);
    ScannedUnshared(after, |pages|);
    ScanIsIdempotent(pages);
  }

  lemma StepKeepsInvariant(sig: Signer, s: EngineState, op: Op)
    requires Invariant(s) && Enabled(sig, s, op)
    ensures Invariant(Apply(sig, s, op))
  {
    var r := s.regions[op.region];
    match op {
      case Scan(k) =>
        ScanKeepsWellFormed(r.pages);
        TotalAfterUpdate(s.regions, k, ScannedRegion(r));
        if r.optIn {
          ScanDeltas(r.pages, sig, s.stats);
        }
      case Write(k, page, value) =>
        WriteKeepsWellFormed(r.pages, page, value);
        WriteUnshares(r.pages, page, value);
        TotalAfterUpdate(s.regions, k, r.(pages := WrittenPages(r.pages, page, value)));
    }
    hide TotalShared, SharedCount, WellFormed, Scanned, WrittenPages, ScanStatsUpTo;
  }

  /** Over every run from fresh regions: homes precede their pages, every scanned page was
      counted once as unique or duplicate, 4096 bytes are saved per duplicate, and the pages
      now shared are the duplicates less the copies made on write. */
  lemma {:induction false} RunKeepsInvariant(sig: Signer, s: EngineState, ops: seq<Op>)
    requires Invariant(s) && IsRun(sig, s, ops)
    ensures Invariant(Final(sig, s, ops))
    decreases |ops|
  {
    if ops != [] {
      StepKeepsInvariant(sig, s, ops[0]);
      RunKeepsInvariant(sig, Apply(sig, s, ops[0]), ops[1..]);
    }
  }

  // ----- counting writes -----

  /** Writes whose page exists; the regions' sizes are those at the start. */
  ghost function CountedWrites(s: EngineState, ops: seq<Op>): nat {
    if ops == [] then 0
    else
      var op := ops[0];
      var counted := op.Write? && op.region < |s.regions| && op.page < |s.regions[op.region].pages|;
      (if counted then 1 else 0) + CountedWrites(s, ops[1..])
  }

  ghost predicate SameSizes(s: EngineState, t: EngineState) {
    && |s.regions| == |t.regions|
    && forall r :: 0 <= r < |s.regions| ==> |s.regions[r].pages| == |t.regions[r].pages|
  }

  lemma {:induction false} SizesDecideCountedWrites(s: EngineState, t: EngineState, ops: seq<Op>)
    requires SameSizes(s, t)
    ensures CountedWrites(s, ops) == CountedWrites(t, ops)
  {
    if ops != [] {
      SizesDecideCountedWrites(s, t, ops[1..]);
    }
  }

  /** Over every run no page is added or lost, and `writesEmulated` grows by exactly the
      writes whose page exists. */
  lemma {:induction false} RunCountsWrites(sig: Signer, s: EngineState, ops: seq<Op>)
    requires IsRun(sig, s, ops)
    ensures SameSizes(s, Final(sig, s, ops))
    ensures Final(sig, s, ops).stats.writesEmulated == s.stats.writesEmulated + CountedWrites(s, ops)
    decreases |ops|
  {
    if ops != [] {
      var s' := Apply(sig, s, ops[0]);
      assert SameSizes(s, s');
      RunCountsWrites(sig, s', ops[1..]);
      SizesDecideCountedWrites(s, s', ops[1..]);
    }
  }
}
