/** Every run of page additions, write faults and drains from empty tables. */
module RegistryRuns {
  import opened Pages
  import opened PageOrder
  import opened Registry
  import opened OrderedTables
  import opened Grouping

  /** The shapes of the trees are part of an event: lookups reshape them. */
  datatype Event =
    | Observe(frame: Frame, pool: Allocation, trees: Trees)
    | Fault(address: FaultAddress, write: bool, copied: bool)
    | Drain(drainTrees: DrainTrees)

  /** The head of an entry promoted to shared, whether each of its two insertions succeeded, and
      whether it was newly entered into the copy-on-write registry. */
  datatype Promotion = Promotion(frame: Frame, grouped: bool, guarded: bool, entered: bool)

  /** What the last drain left, and what happened since: the accepted observations, the
      promotions, and the frames whose write fault was handled. */
  datatype History = History(
    leftover: RegistryValue,
    seen: seq<Frame>,
    promotions: seq<Promotion>,
    faulted: seq<Frame>)

  datatype Run = Run(registry: RegistryValue, history: History)

  const EMPTY := RegistryValue([], [], {})

  function StartingFrom(registry: RegistryValue): Run {
    Run(registry, History(registry, [], [], []))
  }

  function PromotionBy(memory: FrameContents, r: RegistryValue, tree: Shape, head: Frame, s: PageSignature,
                       pool: Allocation): Promotion
  {
    var (after, status) := MarkedShared(memory, r, tree, head, s, pool);
    Promotion(head, Promoted(memory, r.groups, tree, head, s, pool.group).1 == Success, status == Success,
              head !in r.cow && head in after.cow)
  }

  /** The promotion an observation makes, if any. */
  function PromotionsBy(memory: FrameContents, r: RegistryValue, trees: Trees, f: Frame, s: PageSignature,
                        pool: Allocation): seq<Promotion>
  {
    match Search(memory, r.pages, trees.pages, Key(s, f))
    case Absent(_) => []
    case Found(k) =>
      var e := r.pages[k];
      if Promotes(e, f) then [PromotionBy(memory, r, trees.groups, e.head, e.signature, pool)] else []
  }

  function Step(memory: FrameContents, sig: SignWords, r: Run, e: Event): Run {
    match e
    case Observe(f, pool, trees) =>
      var (registry, status) := AddedPage(memory, r.registry, trees, f, sig(memory(f)), pool);
      var promotions := PromotionsBy(memory, r.registry, trees, f, sig(memory(f)), pool);
      Run(registry, r.history.(seen := r.history.seen + (if status == Success then [f] else []),
                               promotions := r.history.promotions + promotions))
    case Fault(address, write, copied) =>
      var (registry, status) := FaultHandled(r.registry, address, write, copied);
      Run(registry, if status == Success then r.history.(faulted := r.history.faulted + [address.frame]) else r.history)
    case Drain(trees) => StartingFrom(Drained(memory, r.registry, trees))
  }

  function Reached(memory: FrameContents, sig: SignWords, events: seq<Event>): Run {
    if |events| == 0 then StartingFrom(EMPTY)
    else Step(memory, sig, Reached(memory, sig, events[..|events| - 1]), events[|events| - 1])
  }

  /** The frames an event looks up are tracked; demotion looks frame 0 up. */
  ghost predicate IsTracked(frames: iset<Frame>, e: Event) {
    (e.Observe? ==> e.frame in frames) && (e.Drain? ==> 0 in frames)
  }

  ghost predicate AllTracked(frames: iset<Frame>, events: seq<Event>) {
    forall i :: 0 <= i < |events| ==> IsTracked(frames, events[i])
  }

  // ----- what the history determines -----

  /** The groups, from those the last drain left. */
  function GroupsOf(memory: FrameContents, sig: SignWords, base: ContentTable,
                    promotions: seq<Promotion>): ContentTable
  {
    if promotions == [] then base
    else
      var p, earlier := promotions[|promotions| - 1], GroupsOf(memory, sig, base, promotions[..|promotions| - 1]);
      if p.grouped then PromotedIn(memory, earlier, p.frame, sig(memory(p.frame)), true) else earlier
  }

  function Base(memory: FrameContents, h: History): ContentTable {
    ByContent(memory, h.leftover.groups)
  }

  /** Promotions that made a group, rather than growing one that a drain left. */
  function Created(memory: FrameContents, base: ContentTable, promotions: seq<Promotion>): nat {
    if promotions == [] then 0
    else
      var p := promotions[|promotions| - 1];
      Created(memory, base, promotions[..|promotions| - 1])
      + (if p.grouped && memory(p.frame) !in base then 1 else 0)
  }

  /** The frames entered into the copy-on-write registry, in order. */
  function Entered(promotions: seq<Promotion>): seq<Frame> {
    if promotions == [] then []
    else
      var p := promotions[|promotions| - 1];
      Entered(promotions[..|promotions| - 1]) + (if p.entered then [p.frame] else [])
  }

  /** The entries a health query counts as duplicates. */
  function DuplicateEntries(pages: TableValue): nat {
    if pages == [] then 0
    else DuplicateEntries(pages[..|pages| - 1]) + (if pages[|pages| - 1].referenceCount > 1 then 1 else 0)
  }

  // ----- the invariant -----

  ghost predicate Invariant(memory: FrameContents, sig: SignWords, frames: iset<Frame>, r: Run) {
    var h, m := r.history, Grouped(memory, sig, r.history.seen);
    && Represents(memory, sig, frames, r.registry.pages, m)
    && AreSharedEntries(memory, m, h.promotions)
    && |h.promotions| == DuplicateEntries(r.registry.pages)
    && GroupBooks(memory, sig, frames, r.registry, h)
  }

  /** The books of the groups and of the registrations. */
  ghost predicate GroupBooks(memory: FrameContents, sig: SignWords, frames: iset<Frame>, registry: RegistryValue,
                             h: History)
  {
    var base := Base(memory, h);
    && Represents(memory, sig, frames, registry.groups, GroupsOf(memory, sig, base, h.promotions))
    && |registry.groups| == |h.leftover.groups| + Created(memory, base, h.promotions)
    && RegistrationsBalance(h.leftover.cow, h.promotions, h.faulted, registry.cow)
    && GuardsHold(h.leftover.cow, h.promotions)
    && LeftoverIsOther(memory, h.leftover, base)
  }

  /** Promotions are of different contents, and are those of the heads of the shared entries. */
  ghost predicate AreSharedEntries(memory: FrameContents, m: ContentTable, promotions: seq<Promotion>) {
    && DifferentPromotions(memory, promotions)
    && (forall a :: 0 <= a < |promotions| ==> IsSharedHead(memory, m, promotions[a].frame))
    && (forall c :: c in m && m[c].shared ==> HasPromotion(memory, promotions, c))
  }

  ghost predicate DifferentPromotions(memory: FrameContents, promotions: seq<Promotion>) {
    forall a, b :: 0 <= a < b < |promotions| ==> memory(promotions[a].frame) != memory(promotions[b].frame)
  }

  predicate IsSharedHead(memory: FrameContents, m: ContentTable, f: Frame) {
    var c := memory(f);
    c in m && m[c].shared && m[c].head == f
  }

  ghost predicate HasPromotion(memory: FrameContents, promotions: seq<Promotion>, c: Content) {
    exists a :: 0 <= a < |promotions| && memory(promotions[a].frame) == c
  }

  /** Registrations are conserved: what is protected and what was taken out by a fault is what
      the last drain left and what was entered. */
  ghost predicate RegistrationsBalance(leftover: set<Frame>, promotions: seq<Promotion>, faulted: seq<Frame>,
                                       cow: set<Frame>)
  {
    multiset(cow) + multiset(faulted) == multiset(leftover) + multiset(Entered(promotions))
  }

  /** Only grouped pages are protected, and a protected page not newly entered is a leftover. */
  ghost predicate GuardsHold(leftover: set<Frame>, promotions: seq<Promotion>) {
    forall a :: 0 <= a < |promotions| ==> GuardHolds(leftover, promotions[a])
  }

  ghost predicate GuardHolds(leftover: set<Frame>, p: Promotion) {
    (p.entered ==> p.guarded) && (p.guarded ==> p.grouped) && (p.guarded && !p.entered ==> p.frame in leftover)
  }

  /** A drain leaves nothing of the content of frame 0, and no registration without a group. */
  ghost predicate LeftoverIsOther(memory: FrameContents, leftover: RegistryValue, base: ContentTable) {
    && SameEntries(memory, leftover.groups, base) && memory(0) !in base
    && forall f :: f in leftover.cow ==> memory(f) in base
  }

  // ----- the groups of a history -----

  lemma {:induction false} GroupWithoutPromotion(memory: FrameContents, sig: SignWords, base: ContentTable,
                                                 promotions: seq<Promotion>, c: Content)
    requires forall a :: 0 <= a < |promotions| && promotions[a].grouped ==> memory(promotions[a].frame) != c
    ensures var m := GroupsOf(memory, sig, base, promotions);
            (c in m <==> c in base) && (c in m ==> m[c] == base[c])
  {
    if promotions != [] {
      GroupWithoutPromotion(memory, sig, base, promotions[..|promotions| - 1], c);
    }
    hide Observed, NewEntry;
  }

  /** The group of a promoted content: the leftover one with the frame observed, or a new one. */
  lemma {:induction false} GroupOfPromotion(memory: FrameContents, sig: SignWords, base: ContentTable,
                                            promotions: seq<Promotion>, a: nat)
    requires DifferentPromotions(memory, promotions) && a < |promotions| && promotions[a].grouped
    ensures var m, f := GroupsOf(memory, sig, base, promotions), promotions[a].frame;
            var c := memory(f);
            c in m && m[c] == if c in base then Observed(base[c], f) else NewEntry(f, sig(c))
  {
    hide Observed, NewEntry;
    var n := |promotions| - 1;
    if a < n {
      GroupOfPromotion(memory, sig, base, promotions[..n], a);
    } else {
      GroupWithoutPromotion(memory, sig, base, promotions[..n], memory(promotions[a].frame));
    }
  }

  lemma {:induction false} EnteredIsPromoted(promotions: seq<Promotion>, f: Frame)
    ensures f in Entered(promotions)
       <==> exists a :: 0 <= a < |promotions| && promotions[a].entered && promotions[a].frame == f
  {
    if promotions != [] {
      var n := |promotions| - 1;
      EnteredIsPromoted(promotions[..n], f);
      if a :| 0 <= a < |promotions| && promotions[a].entered && promotions[a].frame == f {
        if a < n {
          assert promotions[..n][a] == promotions[a];
        }
      }
      if a :| 0 <= a < n && promotions[..n][a].entered && promotions[..n][a].frame == f {
        assert promotions[a] == promotions[..n][a];
      }
    }
  }

  lemma HistoryExtends(memory: FrameContents, sig: SignWords, base: ContentTable, promotions: seq<Promotion>,
                       p: Promotion)
    ensures GroupsOf(memory, sig, base, promotions + [p])
         == var m := GroupsOf(memory, sig, base, promotions);
            if p.grouped then PromotedIn(memory, m, p.frame, sig(memory(p.frame)), true) else m
    ensures Created(memory, base, promotions + [p])
         == Created(memory, base, promotions) + (if p.grouped && memory(p.frame) !in base then 1 else 0)
    ensures Entered(promotions + [p]) == Entered(promotions) + (if p.entered then [p.frame] else [])
  {
    assert (promotions + [p])[..|promotions|] == promotions;
  }

  // ----- counting duplicates -----

  lemma {:induction false} DuplicatesAfterUpdate(pages: TableValue, k: nat, e: EntryValue)
    requires k < |pages|
    ensures DuplicateEntries(pages[k := e]) == DuplicateEntries(pages)
      + (if e.referenceCount > 1 then 1 else 0) - (if pages[k].referenceCount > 1 then 1 else 0)
  {
    var n := |pages| - 1;
    if k < n {
      DuplicatesAfterUpdate(pages[..n], k, e);
      assert pages[k := e][..n] == pages[..n][k := e];
    } else {
      assert pages[k := e][..n] == pages[..n];
    }
  }

  lemma {:induction false} DuplicatesAfterInsertion(pages: TableValue, k: nat, e: EntryValue)
    requires k <= |pages| && e.referenceCount == 1
    ensures DuplicateEntries(Inserted(pages, k, e)) == DuplicateEntries(pages)
    decreases |pages|
  {
    var n := |pages|;
    if k < n {
      DuplicatesAfterInsertion(pages[..n - 1], k, e);
      assert Inserted(pages, k, e)[..n] == Inserted(pages[..n - 1], k, e);
    } else {
      assert Inserted(pages, k, e)[..n] == pages;
    }
  }
}
