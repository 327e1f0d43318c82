/** The engine itself: pages updated in place, a bucket map filled by a loop, and counters
    (`user/dedupe_engine.cpp`).  Every method is tied to the values of `Operations`. */
module Engine {
  import opened Pages
  import opened Partition
  import opened Buckets
  import opened Operations

  class Page {
    var data: Bytes
    var homeIndex: nat
    var shared: bool

    constructor (data: Bytes)
      ensures Value() == FreshPage(data)
    {
      this.data := data;
      homeIndex := SIZE_MAX;
      shared := false;
    }

    function Value(): PageValue
      reads this
    {
      PageValue(data, homeIndex, shared)
    }

    predicate IsShared()
      reads this
    {
      shared
    }

    method MarkShared(representativeIndex: nat)
      modifies this
      ensures Value() == PageValue(old(data), representativeIndex, true)
    {
      homeIndex := representativeIndex;
      shared := true;
    }

    /** The move assignment of one page slot from another. */
    method MoveFrom(other: Page)
      modifies this
      ensures Value() == old(other.Value())
    {
      data, homeIndex, shared := other.data, other.homeIndex, other.shared;
    }
  }

  class MemoryRegion {
    var name: string
    var optIn: bool
    var pages: seq<Page>

    ghost predicate Valid()
      reads this
    {
      && |pages| <= SIZE_MAX
      && forall i, j :: 0 <= i < j < |pages| ==> pages[i] != pages[j]
    }

    function PageValues(): (values: PageList)
      reads this, pages
      ensures |values| == |pages|
    {
      seq(|pages|, i requires 0 <= i < |pages| reads this, pages => pages[i].Value())
    }

    function Value(): RegionValue
      reads this, pages
    {
      RegionValue(name, optIn, PageValues())
    }

    /** A deep copy of a region value: the copy of a `MemoryRegion` object. */
    constructor (region: RegionValue)
      requires |region.pages| <= SIZE_MAX
      ensures Valid() && Value() == region && fresh(pages)
    {
      name := region.name;
      optIn := region.optIn;
      pages := [];
      new;
      for i := 0 to |region.pages|
        invariant name == region.name && optIn == region.optIn
        invariant |pages| == i && Valid() && fresh(pages)
        invariant PageValues() == region.pages[..i]
      {
        var page := new Page(region.pages[i].data);
        page.homeIndex, page.shared := region.pages[i].homeIndex, region.pages[i].shared;
        pages := pages + [page];
      }
    }
  }

  predicate PagesAreEqual(a: Page, b: Page)
    reads a, b
  {
    |a.data| == |b.data| && a.data == b.data
  }

  type SignatureMap = map<PageSignature, seq<nat>>

  /** Indexing the map inserts an empty list for a missing signature. */
  function Candidates(signatureMap: SignatureMap, s: PageSignature): seq<nat> {
    if s in signatureMap then signatureMap[s] else []
  }

  /** The map holds exactly the buckets of the first n pages. */
  ghost predicate MapHolds(signatureMap: SignatureMap, before: PageList, sig: Signer, n: nat)
    requires n <= |before| && Signable(before, sig)
  {
    forall s :: Candidates(signatureMap, s) == Bucket(before, sig, n, s)
  }

  lemma MapHoldsAt(signatureMap: SignatureMap, before: PageList, sig: Signer, n: nat)
    requires Signable(before, sig) && Unshared(before, n) && MapHolds(signatureMap, before, sig, n)
    ensures Candidates(signatureMap, sig(before[n].data)) == BucketAt(before, sig, n)
  {}

  lemma SkipKeepsMap(signatureMap: SignatureMap, before: PageList, sig: Signer, n: nat)
    requires n < |before| && Signable(before, sig) && MapHolds(signatureMap, before, sig, n)
    requires Unshared(before, n) && Twin(before, n) < n
    ensures MapHolds(signatureMap, before, sig, n + 1)
  {}

  lemma SharedKeepsMap(signatureMap: SignatureMap, before: PageList, sig: Signer, n: nat)
    requires n < |before| && Signable(before, sig) && MapHolds(signatureMap, before, sig, n) && before[n].shared
    ensures MapHolds(signatureMap, before, sig, n + 1)
  {}

  ghost function SearchStats(before: PageList, sig: Signer, n: nat, s: Stats): Stats
    requires Unshared(before, n) && Signable(before, sig)
  {
    s.(pagesScanned := s.pagesScanned + 1,
       collisionProbes := s.collisionProbes + |BucketAt(before, sig, n)|)
  }

  /** The three ways a page that is not shared is visited. */
  lemma VisitOutcome(before: PageList, sig: Signer, n: nat, s: Stats)
    requires Unshared(before, n) && Signable(before, sig)
    ensures var twin, page := Twin(before, n), before[n];
            var s' := SearchStats(before, sig, n, s);
            if twin == n then
              && ScannedPage(before, n) == page
              && VisitStats(before, sig, n, s) == s'.(uniquePages := s.uniquePages + 1)
            else if page.homeIndex == twin then
              && ScannedPage(before, n) == page
              && VisitStats(before, sig, n, s) == s'
            else
              && ScannedPage(before, n) == PageValue(page.data, twin, true)
              && VisitStats(before, sig, n, s) == s'.(duplicatePages := s.duplicatePages + 1,
                                                      bytesSaved := s.bytesSaved + PAGE_SIZE)
  {}

  lemma SharedKeepsStats(before: PageList, sig: Signer, n: nat, stats: Stats)
    requires n < |before| && before[n].shared && Signable(before, sig)
    ensures VisitStats(before, sig, n, stats) == stats
  {}

  lemma AppendKeepsMap(signatureMap: SignatureMap, before: PageList, sig: Signer, n: nat)
    requires n < |before| && Signable(before, sig) && MapHolds(signatureMap, before, sig, n)
    requires Unshared(before, n) && Twin(before, n) == n
    ensures var s := sig(before[n].data);
            MapHolds(signatureMap[s := Candidates(signatureMap, s) + [n]], before, sig, n + 1)
  {
    var s := sig(before[n].data);
    var updated := signatureMap[s := Candidates(signatureMap, s) + [n]];
    forall t: PageSignature
      ensures Candidates(updated, t) == Bucket(before, sig, n + 1, t)
    {
      assert Candidates(signatureMap, t) == Bucket(before, sig, n, t);
    }
  }

  /** The pages once the first n were visited. */
  ghost function Visited(before: PageList, n: nat): PageList
    requires n <= |before|
  {
    Scanned(before)[..n] + before[n..]
  }

  lemma VisitedStep(before: PageList, n: nat)
    requires n < |before|
    ensures |Visited(before, n)| == |before| && Visited(before, n)[n] == before[n]
    ensures Visited(before, n + 1) == Visited(before, n)[n := ScannedPage(before, n)]
    ensures before[n].shared ==> Visited(before, n + 1) == Visited(before, n)
    ensures forall k :: 0 <= k < |before| ==> Visited(before, n)[k].data == before[k].data
  {}

  /** The candidates of a page precede it, and one of them holds its bytes exactly when it has
      an earlier twin. */
  lemma CandidatesInOrder(before: PageList, sig: Signer, n: nat)
    requires Unshared(before, n) && Signable(before, sig)
    ensures var list, twin := BucketAt(before, sig, n), Twin(before, n);
            && (forall x :: 0 <= x < |list| ==>
                  list[x] < n && (before[list[x]].data == before[n].data <==> list[x] == twin))
            && (twin < n <==> exists x :: 0 <= x < |list| && list[x] == twin)
  {
    BucketHoldsTwin(before, sig, n);
    var list := BucketAt(before, sig, n);
    assert forall x :: 0 <= x < |list| ==> list[x] in list;
  }

  lemma CandidatesPrecede(before: PageList, sig: Signer, n: nat)
    requires Unshared(before, n) && Signable(before, sig)
    ensures forall x :: 0 <= x < |BucketAt(before, sig, n)| ==> BucketAt(before, sig, n)[x] < n
  {
    CandidatesInOrder(before, sig, n);
  }

  /** The result of comparing the candidates' bytes. */
  ghost predicate IsSearchResult(values: PageList, index: nat, list: seq<nat>, found: bool, representative: nat)
    requires index < |values| && forall x :: 0 <= x < |list| ==> list[x] < |values|
  {
    if found
    then exists x :: 0 <= x < |list| && list[x] == representative && values[list[x]].data == values[index].data
    else forall x :: 0 <= x < |list| ==> values[list[x]].data != values[index].data
  }

  lemma SearchFindsTwin(before: PageList, sig: Signer, n: nat, found: bool, representative: nat)
    requires Unshared(before, n) && Signable(before, sig)
    requires |Visited(before, n)| == |before|
    requires forall x :: 0 <= x < |BucketAt(before, sig, n)| ==> BucketAt(before, sig, n)[x] < n
    requires IsSearchResult(Visited(before, n), n, BucketAt(before, sig, n), found, representative)
    ensures if found then representative == Twin(before, n) < n else Twin(before, n) == n
  {
    VisitedStep(before, n);
    CandidatesInOrder(before, sig, n);
    hide Visited, BucketAt, Twin;
  }

  class DedupeEngine {
    const sig: Signer
    var stats: Stats

    constructor (sig: Signer)
      ensures this.sig == sig && stats == ZERO_STATS
    {
      this.sig := sig;
      stats := ZERO_STATS;
    }

    method GetStats() returns (r: Stats)
      ensures r == stats
    {
      r := stats;
    }

    method MergePage(region: MemoryRegion, pageIndex: nat, representativeIndex: nat)
      requires region.Valid() && pageIndex < |region.pages|
      modifies this`stats, region.pages[pageIndex]
      ensures var pages := old(region.PageValues());
              var page := pages[pageIndex];
              if page.homeIndex == representativeIndex
              then region.PageValues() == pages && stats == old(stats)
              else && region.PageValues() == pages[pageIndex := PageValue(page.data, representativeIndex, true)]
                   && stats == old(stats).(duplicatePages := old(stats.duplicatePages) + 1,
                                           bytesSaved := old(stats.bytesSaved) + PAGE_SIZE)
    {
      var page := region.pages[pageIndex];
      if page.homeIndex == representativeIndex {
        return;
      }
      page.MarkShared(representativeIndex);
      stats := stats.(duplicatePages := stats.duplicatePages + 1);
      stats := stats.(bytesSaved := stats.bytesSaved + PAGE_SIZE);
    }

    method ClonePageForWrite(region: MemoryRegion, pageIndex: nat)
      requires region.Valid() && pageIndex < |region.pages|
      modifies this`stats, region.pages[pageIndex]
      ensures var pages := old(region.PageValues());
              var page := pages[pageIndex];
              if page.shared
              then && region.PageValues() == pages[pageIndex := FreshPage(page.data)]
                   && stats == old(stats).(writeCowEvents := old(stats.writeCowEvents) + 1)
              else region.PageValues() == pages && stats == old(stats)
    {
      var page := region.pages[pageIndex];
      if !page.IsShared() {
        return;
      }
      stats := stats.(writeCowEvents := stats.writeCowEvents + 1);
      var newPage := new Page(page.data);
      newPage.homeIndex := SIZE_MAX;
      newPage.shared := false;
      page.MoveFrom(newPage);
    }

    /** The search of one candidate list, in order, with a byte comparison per candidate. */
    method FindDuplicate(region: MemoryRegion, index: nat, collisionList: seq<nat>)
      returns (found: bool, representative: nat)
      requires index < |region.pages| && forall x :: 0 <= x < |collisionList| ==> collisionList[x] < |region.pages|
      ensures IsSearchResult(region.PageValues(), index, collisionList, found, representative)
    {
      ghost var values := region.PageValues();
      found, representative := false, 0;
      for c := 0 to |collisionList|
        invariant forall x :: 0 <= x < c ==> values[collisionList[x]].data != values[index].data
      {
        assert values[collisionList[c]].data == region.pages[collisionList[c]].data;
        if PagesAreEqual(region.pages[collisionList[c]], region.pages[index]) {
          return true, collisionList[c];
        }
      }
    }

    /** Signs a page and fetches its candidate list. */
    method FetchCandidates(region: MemoryRegion, index: nat, signatureMap: SignatureMap, ghost before: PageList)
      returns (signature: PageSignature, collisionList: seq<nat>)
      requires Unshared(before, index) && Signable(before, sig) && MapHolds(signatureMap, before, sig, index)
      requires region.PageValues() == Visited(before, index)
      ensures signature == sig(before[index].data)
      ensures collisionList == Candidates(signatureMap, signature) == BucketAt(before, sig, index)
    {
      VisitedStep(before, index);
      assert region.pages[index].Value() == region.PageValues()[index];
      signature := sig(region.pages[index].data);
      collisionList := Candidates(signatureMap, signature);
      MapHoldsAt(signatureMap, before, sig, index);
    }

    /** Merges a page into the duplicate found, or enters it in its candidate list. */
    method SettlePage(region: MemoryRegion, index: nat, signature: PageSignature, collisionList: seq<nat>,
                      duplicateFound: bool, representative: nat, signatureMap: SignatureMap,
                      ghost before: PageList, ghost s: Stats)
      returns (updated: SignatureMap)
      requires Unshared(before, index) && Signable(before, sig) && MapHolds(signatureMap, before, sig, index)
      requires region.Valid() && region.PageValues() == Visited(before, index)
      requires stats == SearchStats(before, sig, index, s)
      requires signature == sig(before[index].data) && collisionList == Candidates(signatureMap, signature)
      requires if duplicateFound then representative == Twin(before, index) < index else Twin(before, index) == index
      modifies this`stats, region.pages[index]
      ensures region.PageValues() == Visited(before, index + 1)
      ensures stats == VisitStats(before, sig, index, s)
      ensures MapHolds(updated, before, sig, index + 1)
    {
      VisitedStep(before, index);
      VisitOutcome(before, sig, index, s);
      hide *;
      updated := signatureMap;
      if duplicateFound {
        SkipKeepsMap(signatureMap, before, sig, index);
        MergePage(region, index, representative);
      } else {
        AppendKeepsMap(signatureMap, before, sig, index);
        updated := signatureMap[signature := collisionList + [index]];
        stats := stats.(uniquePages := stats.uniquePages + 1);
      }
    }

    /** The body of the scan's loop for a page that is not shared. */
    method VisitPage(region: MemoryRegion, index: nat, signatureMap: SignatureMap, ghost before: PageList)
      returns (updated: SignatureMap)
      requires Unshared(before, index) && Signable(before, sig) && MapHolds(signatureMap, before, sig, index)
      requires region.Valid() && region.PageValues() == Visited(before, index)
      modifies this`stats, region.pages[index]
      ensures region.PageValues() == Visited(before, index + 1)
      ensures stats == VisitStats(before, sig, index, old(stats))
      ensures MapHolds(updated, before, sig, index + 1)
    {
      assert |Visited(before, index)| == |before|;
      CandidatesPrecede(before, sig, index);
      hide Bucket, BucketAt, Twin, MapHolds, Visited, MemoryRegion.PageValues, Candidates, IsSearchResult, VisitStats;
      stats := stats.(pagesScanned := stats.pagesScanned + 1);
      var signature, collisionList := FetchCandidates(region, index, signatureMap, before);
      stats := stats.(collisionProbes := stats.collisionProbes + |collisionList|);
      var duplicateFound, representative := FindDuplicate(region, index, collisionList);
      SearchFindsTwin(before, sig, index, duplicateFound, representative);
      updated := SettlePage(region, index, signature, collisionList, duplicateFound, representative,
                            signatureMap, before, old(stats));
    }

    /** The scan's loop over the pages of an opted-in region. */
    method ScanPages(region: MemoryRegion, ghost before: PageList)
      requires region.Valid() && before == region.PageValues() && Signable(before, sig)
      modifies this`stats, region.pages
      ensures region.PageValues() == Scanned(before)
      ensures stats == ScanStatsUpTo(before, sig, |before|, old(stats))
    {
      var signatureMap: SignatureMap := map[];
      assert Visited(before, 0) == before && Visited(before, |before|) == Scanned(before);
      assert MapHolds(map[], before, sig, 0) && stats == ScanStatsUpTo(before, sig, 0, stats);
      hide MapHolds, ScanStatsUpTo, VisitStats, Signable, Visited, Scanned;
      for index := 0 to |region.pages|
        invariant region.PageValues() == Visited(before, index)
        invariant stats == ScanStatsUpTo(before, sig, index, old(stats))
        invariant MapHolds(signatureMap, before, sig, index)
      {
        ScanStatsStep(before, sig, index, old(stats));
        VisitedStep(before, index);
        assert region.pages[index].Value() == region.PageValues()[index];
        if region.pages[index].IsShared() {
          SharedKeepsStats(before, sig, index, stats);
          SharedKeepsMap(signatureMap, before, sig, index);
          continue;
        }
        signatureMap := VisitPage(region, index, signatureMap, before);
      }
    }

    method ScanRegion(region: MemoryRegion)
      requires region.Valid() && Scannable(region.Value(), sig)
      modifies this`stats, region.pages
      ensures region.Valid() && region.Value() == ScannedRegion(old(region.Value()))
      ensures region.optIn && NoStaleHome(old(region.PageValues())) ==>
                IsNaivePartition(old(region.PageValues()), region.PageValues())
      ensures stats == ScanStats(old(region.Value()), sig, old(stats))
    {
      if !region.optIn {
        return;
      }
      ScanIsNaivePartition(region.PageValues());
      ScanPages(region, region.PageValues());
      hide IsNaivePartition, NoStaleHome, Scanned;
    }

    method WriteToPage(region: MemoryRegion, pageIndex: nat, value: bv8)
      requires region.Valid()
      modifies this`stats, region.pages
      ensures region.Valid()
      ensures region.Value() == old(region.Value()).(pages := WrittenPages(old(region.PageValues()), pageIndex, value))
      ensures stats == WriteStats(old(region.PageValues()), pageIndex, old(stats))
      ensures stats == old(stats).(writesEmulated := stats.writesEmulated, writeCowEvents := stats.writeCowEvents)
    {
      if pageIndex >= |region.pages| {
        return;
      }
      ghost var before := region.PageValues();
      stats := stats.(writesEmulated := stats.writesEmulated + 1);
      var page := region.pages[pageIndex];
      if page.IsShared() {
        ClonePageForWrite(region, pageIndex);
      }
      assert page.Value() == region.PageValues()[pageIndex];
      if page.data == [] {
        page.data := seq(PAGE_SIZE, _ => 0);
      }
      page.data := page.data[0 := value];
      assert page.Value() == WrittenPage(before[pageIndex], value);
      assert region.PageValues() == WrittenPages(before, pageIndex, value);
    }
  }
}
