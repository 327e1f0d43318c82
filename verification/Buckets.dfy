/** The signature buckets of one scan, and how often they are probed. */
module Buckets {
  import opened Pages
  import opened Partition

  /** Every page the scan will sign has a signature. */
  ghost predicate Signable(pages: PageList, sig: Signer) {
    forall i: nat :: Unshared(pages, i) ==> sig.requires(pages[i].data)
  }

  /** The candidate list for signature s once the first n pages were visited. */
  ghost function Bucket(pages: PageList, sig: Signer, n: nat, s: PageSignature): (r: seq<nat>)
    requires n <= |pages| && Signable(pages, sig)
    ensures |r| <= RepresentativesUpTo(pages, n)
    ensures forall k: nat :: k in r <==> k < n && IsRepresentative(pages, k) && sig(pages[k].data) == s
    ensures forall x, y :: 0 <= x < y < |r| ==> r[x] < r[y]
  {
    if n == 0 then []
    else
      var earlier := Bucket(pages, sig, n - 1, s);
      assert forall x :: 0 <= x < |earlier| ==> earlier[x] in earlier;
      if IsRepresentative(pages, n - 1) && sig(pages[n - 1].data) == s then earlier + [n - 1] else earlier
  }

  /** The list met by page i when the scan reaches it. */
  ghost function BucketAt(pages: PageList, sig: Signer, i: nat): seq<nat>
    requires Signable(pages, sig) && Unshared(pages, i)
  {
    Bucket(pages, sig, i, sig(pages[i].data))
  }

  /** The search of the bucket finds the page's twin, whatever else hashed there. */
  lemma BucketHoldsTwin(pages: PageList, sig: Signer, i: nat)
    requires Signable(pages, sig) && Unshared(pages, i)
    ensures Twin(pages, i) in BucketAt(pages, sig, i) <==> Twin(pages, i) < i
    ensures forall k :: k in BucketAt(pages, sig, i) && pages[k].data == pages[i].data ==> k == Twin(pages, i)
  {
    TwinIsRepresentative(pages, i);
    forall k | k in BucketAt(pages, sig, i) && pages[k].data == pages[i].data
      ensures k == Twin(pages, i)
    {
      TwinIsLeast(pages, i, k);
    }
  }

  ghost function ProbesUpTo(pages: PageList, sig: Signer, n: nat): nat
    requires n <= |pages| && Signable(pages, sig)
  {
    if n == 0 then 0
    else ProbesUpTo(pages, sig, n - 1) + (if Unshared(pages, n - 1) then |BucketAt(pages, sig, n - 1)| else 0)
  }

  /** Pages that have an earlier twin. */
  function RepeatsUpTo(pages: PageList, n: nat): nat
    requires n <= |pages|
  {
    UnsharedUpTo(pages, n) - RepresentativesUpTo(pages, n)
  }

  ghost predicate Separates(pages: PageList, sig: Signer)
    requires Signable(pages, sig)
  {
    forall i: nat, j: nat :: Unshared(pages, i) && Unshared(pages, j) && pages[i].data != pages[j].data ==>
      sig(pages[i].data) != sig(pages[j].data)
  }

  /** One page adds nothing, or is a new representative, or repeats one already listed. */
  lemma ProbeStep(pages: PageList, sig: Signer, n: nat)
    requires n < |pages| && Signable(pages, sig)
    ensures var u, u' := RepresentativesUpTo(pages, n), RepresentativesUpTo(pages, n + 1);
            var d, d' := RepeatsUpTo(pages, n), RepeatsUpTo(pages, n + 1);
            var p, p' := ProbesUpTo(pages, sig, n), ProbesUpTo(pages, sig, n + 1);
            || (u' == u && d' == d && p' == p)
            || (u' == u + 1 && d' == d && p <= p' <= p + u)
            || (u' == u && d' == d + 1 && p + 1 <= p' <= p + u)
  {
    if Unshared(pages, n) {
      BucketHoldsTwin(pages, sig, n);
      hide Bucket, Twin;
    }
  }

  lemma NothingProbedYet(pages: PageList, sig: Signer)
    requires Signable(pages, sig)
    ensures ProbesUpTo(pages, sig, 0) == RepeatsUpTo(pages, 0) == RepresentativesUpTo(pages, 0) == 0
  {}

  /** Each repeat costs at least one probe, at any later point of the scan. */
  lemma {:induction false} ProbesGrowWithRepeats(pages: PageList, sig: Signer, m: nat, n: nat)
    requires m <= n <= |pages| && Signable(pages, sig)
    ensures ProbesUpTo(pages, sig, m) - RepeatsUpTo(pages, m) <= ProbesUpTo(pages, sig, n) - RepeatsUpTo(pages, n)
  {
    hide *;
    if m < n {
      ProbesGrowWithRepeats(pages, sig, m, n - 1);
      ProbeStep(pages, sig, n - 1);
    }
  }

  /** With u representatives and d repeats, a scan probes at least d and at most
      u(u-1)/2 + d*u candidates. */
  lemma ProbeBounds(pages: PageList, sig: Signer, n: nat)
    requires n <= |pages| && Signable(pages, sig)
    ensures RepeatsUpTo(pages, n) <= ProbesUpTo(pages, sig, n)
    ensures 2 * ProbesUpTo(pages, sig, n) <= ProbeCeiling(RepresentativesUpTo(pages, n), RepeatsUpTo(pages, n))
  {
    ProbesGrowWithRepeats(pages, sig, 0, n);
    ProbesAtMost(pages, sig, n);
  }

  lemma {:induction false} ProbesAtMost(pages: PageList, sig: Signer, n: nat)
    requires n <= |pages| && Signable(pages, sig)
    ensures 2 * ProbesUpTo(pages, sig, n) <= ProbeCeiling(RepresentativesUpTo(pages, n), RepeatsUpTo(pages, n))
  {
    hide ProbesUpTo, RepeatsUpTo, RepresentativesUpTo, Signable, Unshared;
    if n == 0 {
      NothingProbedYet(pages, sig);
    } else {
      ProbesAtMost(pages, sig, n - 1);
      ProbeStep(pages, sig, n - 1);
      CeilingStep(RepresentativesUpTo(pages, n - 1), RepeatsUpTo(pages, n - 1), ProbesUpTo(pages, sig, n - 1),
                  RepresentativesUpTo(pages, n), RepeatsUpTo(pages, n), ProbesUpTo(pages, sig, n));
    }
  }

  /** Twice u(u-1)/2 + d*u. */
  function ProbeCeiling(u: nat, d: nat): int {
    u * (u - 1) + 2 * d * u
  }

  lemma CeilingStep(u: nat, d: nat, p: nat, u': nat, d': nat, p': nat)
    requires 2 * p <= ProbeCeiling(u, d) && p' <= p + u
    requires (u' == u && d' == d && p' == p) || (u' == u + 1 && d' == d) || (u' == u && d' == d + 1)
    ensures 2 * p' <= ProbeCeiling(u', d')
  {
    assert (u + 1) * u == u * (u - 1) + 2 * u;
    assert 2 * d * (u + 1) == 2 * d * u + 2 * d;
    assert 2 * (d + 1) * u == 2 * d * u + 2 * u;
  }

  /** The lower bound is met exactly when no two different scanned pages share a signature. */
  lemma ProbesMinimalExactlyWhenSeparated(pages: PageList, sig: Signer)
    requires Signable(pages, sig)
    ensures ProbesUpTo(pages, sig, |pages|) == RepeatsUpTo(pages, |pages|) <==> Separates(pages, sig)
  {
    if Separates(pages, sig) {
      SeparatedProbes(pages, sig, |pages|);
    } else {
      var i: nat, j: nat :| Unshared(pages, i) && Unshared(pages, j) && pages[i].data != pages[j].data
        && sig(pages[i].data) == sig(pages[j].data);
      TwinIsRepresentative(pages, i);
      TwinIsRepresentative(pages, j);
      var a, b := Twin(pages, i), Twin(pages, j);
      CollisionCostsAProbe(pages, sig, if a < b then a else b, if a < b then b else a);
    }
  }

  lemma {:induction false} SeparatedProbes(pages: PageList, sig: Signer, n: nat)
    requires n <= |pages| && Signable(pages, sig) && Separates(pages, sig)
    ensures ProbesUpTo(pages, sig, n) == RepeatsUpTo(pages, n)
  {
    if n > 0 {
      SeparatedProbes(pages, sig, n - 1);
      if Unshared(pages, n - 1) {
        SeparatedBucket(pages, sig, n - 1);
      }
      hide BucketAt, Twin, Separates, Signable;
    }
  }

  lemma SeparatedBucket(pages: PageList, sig: Signer, i: nat)
    requires Signable(pages, sig) && Separates(pages, sig) && Unshared(pages, i)
    ensures |BucketAt(pages, sig, i)| == if IsRepresentative(pages, i) then 0 else 1
  {
    var bucket, twin := BucketAt(pages, sig, i), Twin(pages, i);
    assert |bucket| > 1 ==> bucket[0] < bucket[1];
    BucketHoldsTwin(pages, sig, i);
    forall x | 0 <= x < |bucket|
      ensures bucket[x] == twin < i
    {
      assert bucket[x] in bucket;
    }
    if |bucket| > 0 {
      assert bucket[0] == twin < i;
    }
    assert twin < i ==> twin in bucket;
  }

  lemma CollisionStep(pages: PageList, sig: Signer, a: nat, b: nat)
    requires Signable(pages, sig) && a < b && IsRepresentative(pages, a) && IsRepresentative(pages, b)
    requires sig(pages[a].data) == sig(pages[b].data)
    ensures ProbesUpTo(pages, sig, b + 1) >= ProbesUpTo(pages, sig, b) + 1
    ensures RepeatsUpTo(pages, b + 1) == RepeatsUpTo(pages, b)
  {
    assert a in BucketAt(pages, sig, b);
    assert |BucketAt(pages, sig, b)| >= 1;
    hide BucketAt, Twin;
  }

  lemma CollisionCostsAProbe(pages: PageList, sig: Signer, a: nat, b: nat)
    requires Signable(pages, sig) && a < b < |pages| && IsRepresentative(pages, a) && IsRepresentative(pages, b)
    requires sig(pages[a].data) == sig(pages[b].data)
    ensures ProbesUpTo(pages, sig, |pages|) > RepeatsUpTo(pages, |pages|)
  {
    hide *;
    NothingProbedYet(pages, sig);
    ProbesGrowWithRepeats(pages, sig, 0, b);
    CollisionStep(pages, sig, a, b);
    ProbesGrowWithRepeats(pages, sig, b + 1, |pages|);
  }
}
