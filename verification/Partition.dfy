/** What one scan of a region computes, said without the hash map: a page is merged into
    the least unshared page holding the same bytes. */
module Partition {
  import opened Pages

  type PageList = seq<PageValue>

  // ----- twins -----

  /** The least index from k on of an unshared page with these bytes; |pages| when there is none. */
  function FirstFrom(pages: PageList, data: Bytes, k: nat): (r: nat)
    requires k <= |pages|
    ensures k <= r <= |pages|
    ensures r < |pages| ==> !pages[r].shared && pages[r].data == data
    ensures forall j :: k <= j < r && !pages[j].shared ==> pages[j].data != data
    decreases |pages| - k
  {
    if k == |pages| || (!pages[k].shared && pages[k].data == data) then k
    else FirstFrom(pages, data, k + 1)
  }

  predicate Unshared(pages: PageList, i: nat) {
    i < |pages| && !pages[i].shared
  }

  /** The least unshared page with the bytes of page i. */
  function Twin(pages: PageList, i: nat): (j: nat)
    requires Unshared(pages, i)
    ensures j <= i && Unshared(pages, j) && pages[j].data == pages[i].data
    ensures forall k :: 0 <= k < j && Unshared(pages, k) ==> pages[k].data != pages[i].data
  {
    FirstFrom(pages, pages[i].data, 0)
  }

  lemma TwinIsLeast(pages: PageList, i: nat, j: nat)
    requires Unshared(pages, i) && Unshared(pages, j) && pages[i].data == pages[j].data
    ensures Twin(pages, i) == Twin(pages, j) <= j
  {}

  predicate IsRepresentative(pages: PageList, i: nat) {
    Unshared(pages, i) && Twin(pages, i) == i
  }

  lemma TwinIsRepresentative(pages: PageList, i: nat)
    requires Unshared(pages, i)
    ensures IsRepresentative(pages, Twin(pages, i))
  {
    TwinIsLeast(pages, i, Twin(pages, i));
  }

  // ----- the scan as a map on pages -----

  /** `mergePage` returns early when the page already carries that home, flagged or not. */
  predicate Merges(pages: PageList, i: nat) {
    Unshared(pages, i) && Twin(pages, i) < i && pages[i].homeIndex != Twin(pages, i)
  }

  function ScannedPage(pages: PageList, i: nat): PageValue
    requires i < |pages|
  {
    if Merges(pages, i) then PageValue(pages[i].data, Twin(pages, i), true) else pages[i]
  }

  function Scanned(pages: PageList): PageList {
    seq(|pages|, i requires 0 <= i < |pages| => ScannedPage(pages, i))
  }

  /** No unshared page carries, as a leftover, the index of its earlier twin. */
  ghost predicate NoStaleHome(pages: PageList) {
    forall i: nat :: Unshared(pages, i) && Twin(pages, i) < i ==> pages[i].homeIndex != Twin(pages, i)
  }

  /** j is before i and is the least index of a page, unshared on entry, with the bytes of page i. */
  ghost predicate IsEarlierTwin(pages: PageList, i: nat, j: nat) {
    && j < i < |pages|
    && Unshared(pages, j)
    && pages[j].data == pages[i].data
    && forall k :: 0 <= k < j && Unshared(pages, k) ==> pages[k].data != pages[i].data
  }

  /** The quadratic specification of a scan. */
  ghost predicate IsNaivePartition(before: PageList, after: PageList) {
    && |after| == |before|
    && (forall i :: 0 <= i < |before| ==> after[i].data == before[i].data)
    && (forall i :: 0 <= i < |before| && before[i].shared ==> after[i] == before[i])
    && (forall i: nat :: Unshared(before, i) ==>
          if after[i].shared
          then IsEarlierTwin(before, i, after[i].homeIndex)
          else after[i] == before[i] && forall j: nat :: !IsEarlierTwin(before, i, j))
  }

  lemma EarlierTwinIsTwin(pages: PageList, i: nat, j: nat)
    requires Unshared(pages, i)
    ensures IsEarlierTwin(pages, i, j) <==> j == Twin(pages, i) < i
  {}

  /** The scan meets its quadratic specification exactly on regions without leftover homes. */
  lemma ScanIsNaivePartition(pages: PageList)
    ensures IsNaivePartition(pages, Scanned(pages)) <==> NoStaleHome(pages)
  {
    var after := Scanned(pages);
    forall i, j: nat | Unshared(pages, i)
      ensures IsEarlierTwin(pages, i, j) <==> j == Twin(pages, i) < i
    {
      EarlierTwinIsTwin(pages, i, j);
    }
    if IsNaivePartition(pages, after) {
      forall i: nat | Unshared(pages, i) && Twin(pages, i) < i
        ensures pages[i].homeIndex != Twin(pages, i)
      {
        assert IsEarlierTwin(pages, i, Twin(pages, i));
        assert after[i].shared;
      }
    }
  }

  /** The quadratic specification has one solution. */
  lemma NaivePartitionIsUnique(before: PageList, a: PageList, b: PageList)
    requires IsNaivePartition(before, a) && IsNaivePartition(before, b)
    ensures a == b
  {
    forall i | 0 <= i < |before|
      ensures a[i] == b[i]
    {
      if !before[i].shared {
        if a[i].shared {
          assert IsEarlierTwin(before, i, a[i].homeIndex);
        }
        if b[i].shared {
          assert IsEarlierTwin(before, i, b[i].homeIndex);
        }
      }
    }
  }

  /** A page still unshared after the scan keeps the twin it had. */
  lemma ScannedTwin(pages: PageList, i: nat)
    requires Unshared(Scanned(pages), i)
    ensures Unshared(pages, i) && Twin(Scanned(pages), i) == Twin(pages, i)
  {
    var j := Twin(pages, i);
    TwinIsRepresentative(pages, i);
    assert Unshared(Scanned(pages), j);
    forall k | 0 <= k < j && Unshared(Scanned(pages), k)
      ensures Scanned(pages)[k].data != pages[i].data
    {
      assert Unshared(pages, k);
    }
  }

  /** A second scan changes no page, and the pages left unshared are pairwise different
      exactly when there was no leftover home. */
  lemma ScanIsIdempotent(pages: PageList)
    ensures Scanned(Scanned(pages)) == Scanned(pages)
    ensures (forall i: nat, j: nat :: Unshared(Scanned(pages), i) && Unshared(Scanned(pages), j) && i != j ==>
               Scanned(pages)[i].data != Scanned(pages)[j].data)
       <==> NoStaleHome(pages)
  {
    var after := Scanned(pages);
    forall i | 0 <= i < |pages|
      ensures ScannedPage(after, i) == after[i]
    {
      if Unshared(after, i) {
        ScannedTwin(pages, i);
      }
    }
    if NoStaleHome(pages) {
      forall i: nat, j: nat | Unshared(after, i) && Unshared(after, j) && i != j
        ensures after[i].data != after[j].data
      {
        ScannedTwin(pages, i);
        ScannedTwin(pages, j);
        if after[i].data == after[j].data {
          TwinIsLeast(pages, i, j);
        }
      }
    } else {
      var i: nat :| Unshared(pages, i) && Twin(pages, i) < i && pages[i].homeIndex == Twin(pages, i);
      TwinIsRepresentative(pages, i);
      assert Unshared(after, i) && Unshared(after, Twin(pages, i));
    }
  }

  // ----- counting -----

  function UnsharedUpTo(pages: PageList, n: nat): nat
    requires n <= |pages|
  {
    if n == 0 then 0 else UnsharedUpTo(pages, n - 1) + (if pages[n - 1].shared then 0 else 1)
  }

  function RepresentativesUpTo(pages: PageList, n: nat): (r: nat)
    requires n <= |pages|
    ensures r <= UnsharedUpTo(pages, n)
  {
    if n == 0 then 0 else RepresentativesUpTo(pages, n - 1) + (if IsRepresentative(pages, n - 1) then 1 else 0)
  }

  function MergedUpTo(pages: PageList, n: nat): nat
    requires n <= |pages|
  {
    if n == 0 then 0 else MergedUpTo(pages, n - 1) + (if Merges(pages, n - 1) then 1 else 0)
  }

  /** Pages currently shared. */
  function SharedCount(pages: PageList): nat {
    UnsharedIsBounded(pages, |pages|);
    |pages| - UnsharedUpTo(pages, |pages|)
  }

  lemma {:induction false} UnsharedIsBounded(pages: PageList, n: nat)
    requires n <= |pages|
    ensures UnsharedUpTo(pages, n) <= n
  {
    if n > 0 {
      UnsharedIsBounded(pages, n - 1);
    }
  }

  ghost function UnsharedContents(pages: PageList, n: nat): set<Bytes>
    requires n <= |pages|
  {
    set k | 0 <= k < n && Unshared(pages, k) :: pages[k].data
  }

  /** Representatives are counted once per distinct content. */
  lemma {:induction false} RepresentativesAreContents(pages: PageList, n: nat)
    requires n <= |pages|
    ensures RepresentativesUpTo(pages, n) == |UnsharedContents(pages, n)|
  {
    if n == 0 {
      assert UnsharedContents(pages, 0) == {};
    } else {
      RepresentativesAreContents(pages, n - 1);
      ContentsStep(pages, n - 1);
      hide UnsharedContents, IsRepresentative;
    }
  }

  lemma ContentsStep(pages: PageList, n: nat)
    requires n < |pages|
    ensures |UnsharedContents(pages, n + 1)|
         == |UnsharedContents(pages, n)| + (if IsRepresentative(pages, n) then 1 else 0)
  {
    var before, after, last := UnsharedContents(pages, n), UnsharedContents(pages, n + 1), pages[n].data;
    if pages[n].shared {
      assert after == before;
    } else {
      assert after == before + {last};
      if Twin(pages, n) < n {
        assert pages[Twin(pages, n)].data in before;
        assert before + {last} == before;
      } else {
        assert before * {last} == {};
      }
    }
  }

  /** Every unshared page is a representative, is merged, or carries a leftover home. */
  lemma {:induction false} MergedAreTheRest(pages: PageList, n: nat)
    requires n <= |pages|
    ensures MergedUpTo(pages, n) + RepresentativesUpTo(pages, n) <= UnsharedUpTo(pages, n)
    ensures NoStaleHome(pages) ==> MergedUpTo(pages, n) + RepresentativesUpTo(pages, n) == UnsharedUpTo(pages, n)
  {
    if n > 0 {
      MergedAreTheRest(pages, n - 1);
    }
  }

  /** The scan turns exactly the merged pages into shared ones. */
  lemma {:induction false} ScannedUnshared(pages: PageList, n: nat)
    requires n <= |pages|
    ensures UnsharedUpTo(Scanned(pages), n) + MergedUpTo(pages, n) == UnsharedUpTo(pages, n)
  {
    if n > 0 {
      ScannedUnshared(pages, n - 1);
    }
  }

  /** Two regions holding the same pages in any order have the same distinct contents and
      the same number of unshared pages, so a scan saves the same amount on both. */
  lemma SavingIgnoresOrder(a: PageList, b: PageList)
    requires multiset(a) == multiset(b)
    ensures RepresentativesUpTo(a, |a|) == RepresentativesUpTo(b, |b|)
    ensures UnsharedUpTo(a, |a|) == UnsharedUpTo(b, |b|)
    ensures NoStaleHome(a) && NoStaleHome(b) ==> MergedUpTo(a, |a|) == MergedUpTo(b, |b|)
  {
    RepresentativesAreContents(a, |a|);
    RepresentativesAreContents(b, |b|);
    SameMembers(a, b);
    UnsharedIsMultisetCount(a, |a|);
    UnsharedIsMultisetCount(b, |b|);
    assert a[..|a|] == a && b[..|b|] == b;
    MergedAreTheRest(a, |a|);
    MergedAreTheRest(b, |b|);
  }

  lemma SameMembers(a: PageList, b: PageList)
    requires multiset(a) == multiset(b)
    ensures UnsharedContents(a, |a|) == UnsharedContents(b, |b|)
  {
    forall k | 0 <= k < |a|
      ensures a[k] in b
    {
      assert a[k] in multiset(a);
    }
    forall k | 0 <= k < |b|
      ensures b[k] in a
    {
      assert b[k] in multiset(b);
    }
  }

  ghost function UnsharedPart(pages: multiset<PageValue>): (r: multiset<PageValue>)
    ensures forall p :: r[p] == if p.shared then 0 else pages[p]
    decreases |pages|
  {
    if pages == multiset{} then multiset{}
    else
      var p :| p in pages;
      var rest := UnsharedPart(pages[p := 0]);
      if p.shared then rest else rest[p := pages[p]]
  }

  lemma {:induction false} UnsharedIsMultisetCount(pages: PageList, n: nat)
    requires n <= |pages|
    ensures UnsharedUpTo(pages, n) == |UnsharedPart(multiset(pages[..n]))|
  {
    hide UnsharedPart;
    if n > 0 {
      UnsharedIsMultisetCount(pages, n - 1);
      var p := pages[n - 1];
      assert pages[..n] == pages[..n - 1] + [p];
      UnsharedPartGrows(multiset(pages[..n - 1]), p);
    } else {
      assert UnsharedPart(multiset(pages[..0])) == multiset{};
    }
  }

  lemma UnsharedPartGrows(pages: multiset<PageValue>, p: PageValue)
    ensures UnsharedPart(pages + multiset{p}) == UnsharedPart(pages) + (if p.shared then multiset{} else multiset{p})
  {
    hide UnsharedPart;
  }
}
