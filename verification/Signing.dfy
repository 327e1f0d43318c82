/** The engine run with its own signature function. */
module Signing {
  import opened Pages
  import opened Hashing
  import opened Partition
  import opened Buckets
  import opened Operations
  import Storage

  /** A page that is signed before and after a write that changes a byte gets two signatures. */
  lemma WriteChangesSignature(data: Bytes, value: bv8)
    requires data != [] && SamplesInBounds(|data|) && value != data[0]
    ensures |Overwritten(data, value)| == |data|
    ensures SignatureOf(Overwritten(data, value)) != SignatureOf(data)
  {
    assert DifferOnlyAt(data, Overwritten(data, value), 0);
    OneByteChangesHash(data, Overwritten(data, value), 0);
  }

  /** A scan reads no byte outside a page exactly when every unshared page has a safe length. */
  lemma SignableExactly(pages: PageList)
    ensures Signable(pages, SignatureOf)
       <==> forall i: nat :: Unshared(pages, i) ==> |pages[i].data| >= 3 && |pages[i].data| !in {8, 9, 16}
  {
    forall i: nat | Unshared(pages, i)
      ensures SamplesInBounds(|pages[i].data|) <==> |pages[i].data| >= 3 && |pages[i].data| !in {8, 9, 16}
    {
      SamplesInBoundsExactly(|pages[i].data|);
    }
  }

  ghost predicate SafeLengths(s: EngineState) {
    forall r, i :: 0 <= r < |s.regions| && 0 <= i < |s.regions[r].pages| ==>
      SamplesInBounds(|s.regions[r].pages[i].data|)
  }

  lemma StepKeepsSafeLengths(s: EngineState, op: Op)
    requires SafeLengths(s) && op.region < |s.regions|
    ensures Enabled(SignatureOf, s, op) && SafeLengths(Apply(SignatureOf, s, op))
  {
    SamplesInBoundsExactly(PAGE_SIZE);
    var pages := s.regions[op.region].pages;
    assert Signable(pages, SignatureOf);
    if op.Write? && op.page < |pages| {
      Storage.OverwrittenChangesExactly(pages[op.page].data, op.value);
    }
    hide SamplesInBounds, SignatureOf, ScanStatsUpTo, Twin;
  }

  /** From pages of safe lengths, every sequence of operations on existing regions is a run:
      writes keep lengths, or grow an empty page to a safe one. */
  lemma {:induction false} SafeLengthsNeverGetStuck(s: EngineState, ops: seq<Op>)
    requires SafeLengths(s) && forall i :: 0 <= i < |ops| ==> ops[i].region < |s.regions|
    ensures IsRun(SignatureOf, s, ops)
    decreases |ops|
  {
    if ops != [] {
      StepKeepsSafeLengths(s, ops[0]);
      SafeLengthsNeverGetStuck(Apply(SignatureOf, s, ops[0]), ops[1..]);
    }
  }
}
