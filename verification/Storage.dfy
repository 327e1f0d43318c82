/** Storing only unshared pages: when following homes gives back the bytes a plain array of
    pages would hold. */
module Storage {
  import opened Pages
  import opened Partition
  import opened Operations
  import opened Runs

  // ----- roots -----

  /** The unshared page reached from page i by following homes. */
  function Root(pages: PageList, i: nat): (r: nat)
    requires WellFormed(pages) && i < |pages|
    ensures r <= i && !pages[r].shared
  {
    if pages[i].shared then Root(pages, pages[i].homeIndex) else i
  }

  /** What a store that keeps the bytes of unshared pages only gives back for each page. */
  function Stored(pages: PageList): seq<Bytes>
    requires WellFormed(pages)
  {
    seq(|pages|, i requires 0 <= i < |pages| => pages[Root(pages, i)].data)
  }

  /** Every shared page holds the bytes of its home. */
  ghost predicate Coherent(pages: PageList) {
    && WellFormed(pages)
    && forall i :: 0 <= i < |pages| && pages[i].shared ==> pages[pages[i].homeIndex].data == pages[i].data
  }

  lemma {:induction false} RootHoldsSameBytes(pages: PageList, i: nat)
    requires Coherent(pages) && i < |pages|
    ensures pages[Root(pages, i)].data == pages[i].data
  {
    if pages[i].shared {
      RootHoldsSameBytes(pages, pages[i].homeIndex);
    }
  }

  /** The roots represent all pages exactly when every page agrees with its own home. */
  lemma RootsRepresentPagesExactlyWhenCoherent(pages: PageList)
    requires WellFormed(pages)
    ensures Stored(pages) == Contents(pages) <==> Coherent(pages)
  {
    if Coherent(pages) {
      forall i | 0 <= i < |pages|
        ensures Stored(pages)[i] == Contents(pages)[i]
      {
        RootHoldsSameBytes(pages, i);
      }
    }
    if Stored(pages) == Contents(pages) {
      forall i | 0 <= i < |pages| && pages[i].shared
        ensures pages[pages[i].homeIndex].data == pages[i].data
      {
        assert Stored(pages)[i] == Contents(pages)[i];
        assert Stored(pages)[pages[i].homeIndex] == Contents(pages)[pages[i].homeIndex];
      }
    }
  }

  // ----- which writes break a home -----

  /** Some shared page has this page as its home. */
  predicate IsHome(pages: PageList, index: nat) {
    exists i :: 0 <= i < |pages| && pages[i].shared && pages[i].homeIndex == index
  }

  /** A write that changes the bytes of a home, which the engine does not intercept: the home
      itself is not flagged shared. */
  predicate BreaksHome(pages: PageList, index: nat, value: bv8) {
    index < |pages| && IsHome(pages, index) && Overwritten(pages[index].data, value) != pages[index].data
  }

  lemma ScanKeepsCoherent(pages: PageList)
    requires Coherent(pages)
    ensures Coherent(Scanned(pages))
  {
    ScanKeepsWellFormed(pages);
  }

  lemma WriteKeepsCoherentExactly(pages: PageList, index: nat, value: bv8)
    requires Coherent(pages)
    ensures Coherent(WrittenPages(pages, index, value)) <==> !BreaksHome(pages, index, value)
  {
    WriteKeepsWellFormed(pages, index, value);
    if index < |pages| {
      var after := WrittenPages(pages, index, value);
      if i :| 0 <= i < |pages| && pages[i].shared && pages[i].homeIndex == index {
        assert after[i].shared && after[i].homeIndex == index && after[i].data == pages[index].data;
      }
    }
  }

  /** The write of a byte already there is the only harmless write to a home. */
  lemma OverwrittenChangesExactly(data: Bytes, value: bv8)
    ensures Overwritten(data, value) != data <==> data == [] || data[0] != value
    ensures |Overwritten(data, value)| == if data == [] then 4096 else |data|
    ensures Overwritten(data, value)[0] == value
    ensures forall k :: 0 < k < |Overwritten(data, value)| ==>
              Overwritten(data, value)[k] == if data == [] then 0 else data[k]
  {}

  // ----- refinement of a plain array of pages -----

  type Memory = seq<seq<Bytes>>

  function Flat(s: EngineState): Memory {
    seq(|s.regions|, r requires 0 <= r < |s.regions| => Contents(s.regions[r].pages))
  }

  /** The same operation on memory that knows nothing of sharing. */
  function FlatStep(memory: Memory, op: Op): Memory {
    match op
    case Scan(_) => memory
    case Write(r, page, value) =>
      if r < |memory| && page < |memory[r]|
      then memory[r := memory[r][page := Overwritten(memory[r][page], value)]]
      else memory
  }

  lemma StepRefinesFlat(sig: Signer, s: EngineState, op: Op)
    requires Enabled(sig, s, op)
    ensures Flat(Apply(sig, s, op)) == FlatStep(Flat(s), op)
  {
    var s' := Apply(sig, s, op);
    var memory := FlatStep(Flat(s), op);
    forall r | 0 <= r < |s.regions|
      ensures Flat(s')[r] == memory[r]
    {
      if r == op.region && op.Write? && op.page < |s.regions[r].pages| {
        var pages := s.regions[r].pages;
        assert Contents(s'.regions[r].pages)
            == Contents(pages)[op.page := Overwritten(pages[op.page].data, op.value)];
      } else {
        assert Contents(s'.regions[r].pages) == Contents(s.regions[r].pages);
      }
    }
  }

  ghost predicate AllWellFormed(s: EngineState) {
    forall r :: 0 <= r < |s.regions| ==> WellFormed(s.regions[r].pages)
  }

  ghost function StoredMemory(s: EngineState): Memory
    requires AllWellFormed(s)
  {
    seq(|s.regions|, r requires 0 <= r < |s.regions| => Stored(s.regions[r].pages))
  }

  ghost predicate AllCoherent(s: EngineState) {
    forall r :: 0 <= r < |s.regions| ==> Coherent(s.regions[r].pages)
  }

  ghost predicate OpBreaksHome(s: EngineState, op: Op) {
    op.Write? && op.region < |s.regions| && BreaksHome(s.regions[op.region].pages, op.page, op.value)
  }

  lemma StepKeepsCoherentExactly(sig: Signer, s: EngineState, op: Op)
    requires AllCoherent(s) && Enabled(sig, s, op)
    ensures AllCoherent(Apply(sig, s, op)) <==> !OpBreaksHome(s, op)
  {
    var pages := s.regions[op.region].pages;
    var s' := Apply(sig, s, op);
    match op {
      case Scan(k) =>
        ScanKeepsCoherent(pages);
      case Write(k, page, value) =>
        WriteKeepsCoherentExactly(pages, page, value);
        assert s'.regions[k].pages == WrittenPages(pages, page, value);
    }
  }

  lemma StoredIsFlatExactlyWhenCoherent(s: EngineState)
    requires AllWellFormed(s)
    ensures StoredMemory(s) == Flat(s) <==> AllCoherent(s)
  {
    forall r | 0 <= r < |s.regions|
      ensures Stored(s.regions[r].pages) == Contents(s.regions[r].pages) <==> Coherent(s.regions[r].pages)
    {
      RootsRepresentPagesExactlyWhenCoherent(s.regions[r].pages);
    }
    if StoredMemory(s) == Flat(s) {
      forall r | 0 <= r < |s.regions|
        ensures Coherent(s.regions[r].pages)
      {
        assert StoredMemory(s)[r] == Flat(s)[r];
      }
    }
  }

  /** At every moment of the run, the roots give back what plain memory would hold. */
  ghost predicate RepresentsThroughout(sig: Signer, s: EngineState, memory: Memory, ops: seq<Op>)
    requires IsRun(sig, s, ops)
    decreases |ops|
  {
    && AllWellFormed(s) && StoredMemory(s) == memory
    && (ops != [] ==> RepresentsThroughout(sig, Apply(sig, s, ops[0]), FlatStep(memory, ops[0]), ops[1..]))
  }

  ghost predicate NeverBreaksHome(sig: Signer, s: EngineState, ops: seq<Op>)
    requires IsRun(sig, s, ops)
    decreases |ops|
  {
    ops != [] ==> !OpBreaksHome(s, ops[0]) && NeverBreaksHome(sig, Apply(sig, s, ops[0]), ops[1..])
  }

  /** Over every run from coherent regions, fresh ones included: storing only the roots
      represents plain memory throughout exactly when no write changes a home in use. */
  lemma {:induction false} RootsRepresentRunExactly(sig: Signer, s: EngineState, ops: seq<Op>)
    requires Invariant(s) && AllCoherent(s) && IsRun(sig, s, ops)
    ensures RepresentsThroughout(sig, s, Flat(s), ops) <==> NeverBreaksHome(sig, s, ops)
    decreases |ops|
  {
    StoredIsFlatExactlyWhenCoherent(s);
    if ops != [] {
      var op, s' := ops[0], Apply(sig, s, ops[0]);
      StepKeepsInvariant(sig, s, op);
      StepKeepsCoherentExactly(sig, s, op);
      StepRefinesFlat(sig, s, op);
      StoredIsFlatExactlyWhenCoherent(s');
      if AllCoherent(s') {
        RootsRepresentRunExactly(sig, s', ops[1..]);
      }
    }
  }

  lemma FreshIsCoherent(s: EngineState)
    requires Fresh(s)
    ensures Invariant(s) && AllCoherent(s)
  {
    FreshSatisfiesInvariant(s);
  }

  /** So from fresh regions, whatever is scanned and written. */
  lemma RootsRepresentFreshRunExactly(sig: Signer, s: EngineState, ops: seq<Op>)
    requires Fresh(s) && IsRun(sig, s, ops)
    ensures RepresentsThroughout(sig, s, Flat(s), ops) <==> NeverBreaksHome(sig, s, ops)
  {
    FreshIsCoherent(s);
    RootsRepresentRunExactly(sig, s, ops);
  }

  // ----- shared pages are read-only -----

  ghost predicate SharedThroughout(sig: Signer, s: EngineState, ops: seq<Op>, r: nat, p: nat)
    requires IsRun(sig, s, ops)
    decreases |ops|
  {
    && r < |s.regions| && p < |s.regions[r].pages| && s.regions[r].pages[p].shared
    && (ops != [] ==> SharedThroughout(sig, Apply(sig, s, ops[0]), ops[1..], r, p))
  }

  /** While a page stays shared, neither its bytes nor its home change. */
  lemma {:induction false} SharedPagesAreReadOnly(sig: Signer, s: EngineState, ops: seq<Op>, r: nat, p: nat)
    requires IsRun(sig, s, ops) && SharedThroughout(sig, s, ops, r, p)
    ensures r < |Final(sig, s, ops).regions| && p < |Final(sig, s, ops).regions[r].pages|
    ensures Final(sig, s, ops).regions[r].pages[p] == s.regions[r].pages[p]
    decreases |ops|
  {
    if ops != [] {
      SharedPagesAreReadOnly(sig, Apply(sig, s, ops[0]), ops[1..], r, p);
      assert Apply(sig, s, ops[0]).regions[r].pages[p] == s.regions[r].pages[p];
    }
  }

  // ----- two things that do happen -----

  /** Two equal pages, scanned; a write that changes page 0 leaves page 1 sharing a home
      that holds other bytes. */
  lemma WritingARepresentativeIsNotCopyOnWrite(data: Bytes, value: bv8)
    requires Overwritten(data, value) != data
    ensures var pages := WrittenPages(Scanned([FreshPage(data), FreshPage(data)]), 0, value);
            pages[1].shared && pages[1].homeIndex == 0 && pages[0].data != pages[1].data == data
  {
    var start := [FreshPage(data), FreshPage(data)];
    assert Twin(start, 0) == 0 && Twin(start, 1) == 0;
  }

  /** A home merged later into an earlier page leaves a chain of two homes, and the root of
      the chain still holds the right bytes. */
  lemma ChainsForm(data: Bytes, value: bv8)
    requires Overwritten(data, value) != data
    ensures var changed := Overwritten(data, value);
            var start := [FreshPage(data), FreshPage(changed), FreshPage(changed)];
            var pages := Scanned(WrittenPages(Scanned(start), 0, value));
            && pages[2].shared && pages[2].homeIndex == 1
            && pages[1].shared && pages[1].homeIndex == 0
            && WellFormed(pages) && Root(pages, 2) == 0 && Coherent(pages)
  {
    var changed := Overwritten(data, value);
    var start := [FreshPage(data), FreshPage(changed), FreshPage(changed)];
    assert Twin(start, 0) == 0 && Twin(start, 1) == 1 && Twin(start, 2) == 1;
    var middle := WrittenPages(Scanned(start), 0, value);
    assert middle == [FreshPage(changed), FreshPage(changed), PageValue(changed, 1, true)];
    assert Twin(middle, 0) == 0 && Twin(middle, 1) == 0;
    var pages := Scanned(middle);
    assert pages[1] == PageValue(changed, 0, true) && pages[2] == PageValue(changed, 1, true);
  }
}
