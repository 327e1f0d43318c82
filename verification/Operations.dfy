/** The effect of the engine's two operations on region values and counters, and the runs
    made of them. */
module Operations {
  import opened Pages
  import opened Partition
  import opened Buckets

  // ----- scanning -----

  function ScannedRegion(region: RegionValue): RegionValue {
    if region.optIn then region.(pages := Scanned(region.pages)) else region
  }

  /** The counters once the first n pages of an opted-in region were visited. */
  ghost function ScanStatsUpTo(pages: PageList, sig: Signer, n: nat, stats: Stats): Stats
    requires n <= |pages| && Signable(pages, sig)
  {
    stats.(pagesScanned := stats.pagesScanned + UnsharedUpTo(pages, n),
           duplicatePages := stats.duplicatePages + MergedUpTo(pages, n),
           uniquePages := stats.uniquePages + RepresentativesUpTo(pages, n),
           bytesSaved := stats.bytesSaved + PAGE_SIZE * MergedUpTo(pages, n),
           collisionProbes := stats.collisionProbes + ProbesUpTo(pages, sig, n))
  }

  /** What visiting page n adds to the counters. */
  ghost function VisitStats(pages: PageList, sig: Signer, n: nat, s: Stats): Stats
    requires n < |pages| && Signable(pages, sig)
  {
    if pages[n].shared then s
    else s.(pagesScanned := s.pagesScanned + 1,
            duplicatePages := s.duplicatePages + (if Merges(pages, n) then 1 else 0),
            uniquePages := s.uniquePages + (if IsRepresentative(pages, n) then 1 else 0),
            bytesSaved := s.bytesSaved + (if Merges(pages, n) then PAGE_SIZE else 0),
            collisionProbes := s.collisionProbes + |BucketAt(pages, sig, n)|)
  }

  lemma ScanStatsStep(pages: PageList, sig: Signer, n: nat, stats: Stats)
    requires n < |pages| && Signable(pages, sig)
    ensures ScanStatsUpTo(pages, sig, n + 1, stats)
         == VisitStats(pages, sig, n, ScanStatsUpTo(pages, sig, n, stats))
  {
    hide BucketAt, Twin;
  }

  /** A region that is not opted in is never signed. */
  ghost predicate Scannable(region: RegionValue, sig: Signer) {
    region.optIn ==> Signable(region.pages, sig)
  }

  ghost function ScanStats(region: RegionValue, sig: Signer, stats: Stats): Stats
    requires Scannable(region, sig)
  {
    if region.optIn then ScanStatsUpTo(region.pages, sig, |region.pages|, stats) else stats
  }

  // ----- writing -----

  /** An empty page grows to a zeroed page first. */
  function Overwritten(data: Bytes, value: bv8): Bytes {
    (if data == [] then seq(PAGE_SIZE, _ => 0) else data)[0 := value]
  }

  /** A shared page is replaced by a private copy; an unshared one keeps its home index. */
  function WrittenPage(page: PageValue, value: bv8): PageValue {
    PageValue(Overwritten(page.data, value), if page.shared then SIZE_MAX else page.homeIndex, false)
  }

  function WrittenPages(pages: PageList, index: nat, value: bv8): PageList {
    if index < |pages| then pages[index := WrittenPage(pages[index], value)] else pages
  }

  function WriteStats(pages: PageList, index: nat, stats: Stats): Stats {
    if index >= |pages| then stats
    else stats.(writesEmulated := stats.writesEmulated + 1,
                writeCowEvents := stats.writeCowEvents + (if pages[index].shared then 1 else 0))
  }

  // ----- runs -----

  /** Some regions and the engine that serves them all. */
  datatype EngineState = EngineState(regions: seq<RegionValue>, stats: Stats)

  datatype Op = Scan(region: nat) | Write(region: nat, page: nat, value: bv8)

  ghost predicate Enabled(sig: Signer, s: EngineState, op: Op) {
    op.region < |s.regions| && (op.Scan? ==> Scannable(s.regions[op.region], sig))
  }

  ghost function Apply(sig: Signer, s: EngineState, op: Op): EngineState
    requires Enabled(sig, s, op)
  {
    var r := s.regions[op.region];
    match op
    case Scan(k) =>
      EngineState(s.regions[k := ScannedRegion(r)], ScanStats(r, sig, s.stats))
    case Write(k, page, value) =>
      EngineState(s.regions[k := r.(pages := WrittenPages(r.pages, page, value))], WriteStats(r.pages, page, s.stats))
  }

  ghost predicate IsRun(sig: Signer, s: EngineState, ops: seq<Op>)
    decreases |ops|
  {
    ops == [] || (Enabled(sig, s, ops[0]) && IsRun(sig, Apply(sig, s, ops[0]), ops[1..]))
  }

  ghost function Final(sig: Signer, s: EngineState, ops: seq<Op>): EngineState
    requires IsRun(sig, s, ops)
    decreases |ops|
  {
    if ops == [] then s else Final(sig, Apply(sig, s, ops[0]), ops[1..])
  }
}
