/** Additions as the code runs them, in up to three locked sections each, interleaved with one
    another, with write faults, and with drains made while no addition is under way. */
module Sections {
  import opened Pages
  import opened PageOrder
  import opened Registry
  import opened FrameOrder
  import opened OrderedTables
  import opened Grouping
  import opened RegistryRuns
  import opened RegistryBooks
  import opened RegistryLaws

  /** How far a promotion is: its entry is flagged, its page is in a group, or nothing is left to do. */
  datatype Stage = Waiting | Joined | Settled

  /** A run with the stage of each promotion since the last drain. */
  datatype State = State(run: Run, stages: seq<Stage>)

  datatype Section =
    | EnterPage(frame: Frame, inPool: bool, tree: Shape)
    | JoinGroup(promotion: nat, inPool: bool, tree: Shape)
    | GuardPage(promotion: nat, inPool: bool)
    | HandleFault(address: FaultAddress, write: bool, copied: bool)
    | DrainAll(drainTrees: DrainTrees)

  // ----- the sections -----

  /** The locked section of `AddPageEntry`. */
  function PageEntered(memory: FrameContents, pages: TableValue, tree: Shape, f: Frame, s: PageSignature,
                       inPool: bool): (TableValue, Status)
  {
    match Search(memory, pages, tree, Key(s, f))
    case Absent(k) => if inPool then (Inserted(pages, k, NewEntry(f, s)), Success) else (pages, InsufficientResources)
    case Found(k) => (pages[k := Flagged(pages[k], f)], Success)
  }

  /** The entry it promotes, if any. */
  function PromotedHead(memory: FrameContents, pages: TableValue, tree: Shape, f: Frame, s: PageSignature): seq<Frame> {
    match Search(memory, pages, tree, Key(s, f))
    case Absent(_) => []
    case Found(k) => if Promotes(pages[k], f) then [pages[k].head] else []
  }

  function Entering(memory: FrameContents, sig: SignWords, x: State, f: Frame, inPool: bool, tree: Shape): State {
    var r, h, s := x.run.registry, x.run.history, sig(memory(f));
    var (pages, status) := PageEntered(memory, r.pages, tree, f, s, inPool);
    var seen := h.seen + (if status == Success then [f] else []);
    var heads := PromotedHead(memory, r.pages, tree, f, s);
    if heads == [] then x.(run := Run(r.(pages := pages), h.(seen := seen)))
    else
      State(Run(r.(pages := pages),
                h.(seen := seen, promotions := h.promotions + [Promotion(heads[0], false, false, false)])),
            x.stages + [Waiting])
  }

  /** `PromoteSharedPageGroup`: a refusal ends the promotion. */
  function Joining(memory: FrameContents, sig: SignWords, x: State, k: nat, inPool: bool, tree: Shape): State
    requires k < |x.stages| == |x.run.history.promotions|
  {
    var r, h, p := x.run.registry, x.run.history, x.run.history.promotions[k];
    var (groups, status) := Promoted(memory, r.groups, tree, p.frame, sig(memory(p.frame)), inPool);
    State(Run(r.(groups := groups), h.(promotions := h.promotions[k := p.(grouped := status == Success)])),
          x.stages[k := if status == Success then Joined else Settled])
  }

  /** `RegisterCowProtectedPage`. */
  function Guarding(x: State, k: nat, inPool: bool): State
    requires k < |x.stages| == |x.run.history.promotions|
  {
    var r, h, p := x.run.registry, x.run.history, x.run.history.promotions[k];
    var (cow, status) := Registered(r.cow, p.frame, inPool);
    var done := p.(guarded := status == Success, entered := p.frame !in r.cow && p.frame in cow);
    State(Run(r.(cow := cow), h.(promotions := h.promotions[k := done])), x.stages[k := Settled])
  }

  ghost predicate AllSettled(stages: seq<Stage>) {
    forall k :: 0 <= k < |stages| ==> stages[k] == Settled
  }

  ghost predicate IsEnabled(x: State, e: Section) {
    match e
    case EnterPage(_, _, _) => true
    case JoinGroup(k, _, _) => k < |x.stages| == |x.run.history.promotions| && x.stages[k] == Waiting
    case GuardPage(k, _) => k < |x.stages| == |x.run.history.promotions| && x.stages[k] == Joined
    case HandleFault(_, _, _) => true
    case DrainAll(_) => AllSettled(x.stages)
  }

  ghost function After(memory: FrameContents, sig: SignWords, x: State, e: Section): State
    requires IsEnabled(x, e)
  {
    match e
    case EnterPage(f, inPool, tree) => Entering(memory, sig, x, f, inPool, tree)
    case JoinGroup(k, inPool, tree) => Joining(memory, sig, x, k, inPool, tree)
    case GuardPage(k, inPool) => Guarding(x, k, inPool)
    case HandleFault(address, write, copied) => x.(run := Step(memory, sig, x.run, Fault(address, write, copied)))
    case DrainAll(trees) => State(Step(memory, sig, x.run, Drain(trees)), [])
  }

  // ----- what a promotion's stage says -----

  predicate StageAgrees(p: Promotion, stage: Stage) {
    match stage
    case Waiting => !p.grouped && !p.guarded && !p.entered
    case Joined => p.grouped && !p.guarded && !p.entered
    case Settled => true
  }

  ghost predicate StagesAgree(promotions: seq<Promotion>, stages: seq<Stage>) {
    |promotions| == |stages| && forall k :: 0 <= k < |stages| ==> StageAgrees(promotions[k], stages[k])
  }

  ghost predicate SectionInvariant(memory: FrameContents, sig: SignWords, frames: iset<Frame>, x: State) {
    Invariant(memory, sig, frames, x.run) && StagesAgree(x.run.history.promotions, x.stages)
  }

  // ----- changing one promotion -----

  lemma PromotionsCommute(memory: FrameContents, m: ContentTable, f: Frame, s: PageSignature, g: Frame,
                          t: PageSignature)
    requires memory(f) != memory(g)
    ensures PromotedIn(memory, PromotedIn(memory, m, f, s, true), g, t, true)
         == PromotedIn(memory, PromotedIn(memory, m, g, t, true), f, s, true)
  {
    hide Observed, NewEntry;
  }

  lemma {:induction false} GroupsAfterJoin(memory: FrameContents, sig: SignWords, base: ContentTable,
                                           promotions: seq<Promotion>, k: nat)
    requires DifferentPromotions(memory, promotions) && k < |promotions| && !promotions[k].grouped
    ensures var p := promotions[k].(grouped := true);
            && GroupsOf(memory, sig, base, promotions[k := p])
               == PromotedIn(memory, GroupsOf(memory, sig, base, promotions), p.frame, sig(memory(p.frame)), true)
            && Created(memory, base, promotions[k := p])
               == Created(memory, base, promotions) + (if memory(p.frame) in base then 0 else 1)
            && Entered(promotions[k := p]) == Entered(promotions)
  {
    hide PromotedIn;
    var n, p := |promotions| - 1, promotions[k].(grouped := true);
    if k < n {
      var f := promotions[n].frame;
      PromotionsCommute(memory, GroupsOf(memory, sig, base, promotions[..n]), p.frame, sig(memory(p.frame)), f,
                        sig(memory(f)));
      GroupsAfterJoin(memory, sig, base, promotions[..n], k);
      assert promotions[k := p][..n] == promotions[..n][k := p];
      assert promotions[..n][k] == promotions[k];
    } else {
      assert promotions[k := p][..n] == promotions[..n];
    }
  }

  lemma {:induction false} GroupsAfterGuard(memory: FrameContents, sig: SignWords, base: ContentTable,
                                            promotions: seq<Promotion>, k: nat, p: Promotion)
    requires k < |promotions| && p.frame == promotions[k].frame && p.grouped == promotions[k].grouped
    ensures GroupsOf(memory, sig, base, promotions[k := p]) == GroupsOf(memory, sig, base, promotions)
    ensures Created(memory, base, promotions[k := p]) == Created(memory, base, promotions)
  {
    hide PromotedIn;
    var n := |promotions| - 1;
    if k < n {
      GroupsAfterGuard(memory, sig, base, promotions[..n], k, p);
      assert promotions[k := p][..n] == promotions[..n][k := p];
    } else {
      assert promotions[k := p][..n] == promotions[..n];
    }
  }

  lemma EnteredLast(promotions: seq<Promotion>)
    requires promotions != []
    ensures var n := |promotions| - 1;
            var last := if promotions[n].entered then multiset{promotions[n].frame} else multiset{};
            multiset(Entered(promotions)) == multiset(Entered(promotions[..n])) + last
  {
    var n := |promotions| - 1;
    EnteringGrows({}, Entered(promotions[..n]), promotions[n].frame);
  }

  lemma SumsCommute(a: multiset<Frame>, b: multiset<Frame>, c: multiset<Frame>)
    ensures (a + b) + c == (a + c) + b
  {}

  lemma {:induction false} EnteredAfterGuard(promotions: seq<Promotion>, k: nat, p: Promotion)
    requires k < |promotions| && p.frame == promotions[k].frame && !promotions[k].entered
    ensures multiset(Entered(promotions[k := p]))
         == multiset(Entered(promotions)) + (if p.entered then multiset{p.frame} else multiset{})
  {
    hide Entered;
    var n, after := |promotions| - 1, promotions[k := p];
    EnteredLast(promotions);
    EnteredLast(after);
    if k < n {
      EnteredAfterGuard(promotions[..n], k, p);
      assert after[..n] == promotions[..n][k := p];
      SumsCommute(multiset(Entered(promotions[..n])), if p.entered then multiset{p.frame} else multiset{},
                  if promotions[n].entered then multiset{promotions[n].frame} else multiset{});
    } else {
      assert after[..n] == promotions[..n];
    }
  }

  lemma SameFramesAreSharedEntries(memory: FrameContents, m: ContentTable, promotions: seq<Promotion>, k: nat,
                                   p: Promotion)
    requires AreSharedEntries(memory, m, promotions) && k < |promotions| && p.frame == promotions[k].frame
    ensures AreSharedEntries(memory, m, promotions[k := p])
  {
    var after := promotions[k := p];
    assert forall a :: 0 <= a < |after| ==> after[a].frame == promotions[a].frame;
    hide IsSharedHead;
    forall c | c in m && m[c].shared
      ensures HasPromotion(memory, after, c)
    {
      assert HasPromotion(memory, promotions, c);
      var a :| 0 <= a < |promotions| && memory(promotions[a].frame) == c;
      assert after[a].frame == promotions[a].frame;
    }
  }

  // ----- every section keeps the invariant -----

  lemma JoiningKeepsBooks(memory: FrameContents, sig: SignWords, frames: iset<Frame>, r: RegistryValue, h: History,
                          k: nat, tree: Shape, inPool: bool)
    requires Contiguous(memory, sig, frames) && GroupBooks(memory, sig, frames, r, h)
    requires DifferentPromotions(memory, h.promotions) && k < |h.promotions| && h.promotions[k].frame in frames
    requires StageAgrees(h.promotions[k], Waiting)
    ensures var p := h.promotions[k];
            var (groups, status) := Promoted(memory, r.groups, tree, p.frame, sig(memory(p.frame)), inPool);
            GroupBooks(memory, sig, frames, r.(groups := groups),
                       h.(promotions := h.promotions[k := p.(grouped := status == Success)]))
  {
    hide Contiguous, Represents, Promoted, LeftoverIsOther, ByContent, Created, Entered, GroupsOf, PromotedIn;
    var p, base := h.promotions[k], Base(memory, h);
    var m := GroupsOf(memory, sig, base, h.promotions);
    PromotedRepresents(memory, sig, frames, r.groups, m, tree, p.frame, inPool);
    GroupsAfterJoin(memory, sig, base, h.promotions, k);
    UnjoinedContent(memory, sig, base, h.promotions, k);
    PromotionWithoutPool(memory, m, p.frame, sig(memory(p.frame)), inPool);
    assert h.promotions[k := p] == h.promotions;
    assert p.(grouped := false) == p;
  }

  /** Before its promotion joins a group, a content has one only if a drain left it. */
  lemma UnjoinedContent(memory: FrameContents, sig: SignWords, base: ContentTable, promotions: seq<Promotion>, k: nat)
    requires DifferentPromotions(memory, promotions) && k < |promotions| && !promotions[k].grouped
    ensures var c := memory(promotions[k].frame);
            c in GroupsOf(memory, sig, base, promotions) <==> c in base
  {
    GroupWithoutPromotion(memory, sig, base, promotions, memory(promotions[k].frame));
    hide GroupsOf;
  }

  lemma PromotionWithoutPool(memory: FrameContents, m: ContentTable, f: Frame, s: PageSignature, inPool: bool)
    ensures PromotedIn(memory, m, f, s, inPool)
         == if memory(f) in m || inPool then PromotedIn(memory, m, f, s, true) else m
  {
    hide Observed, NewEntry;
  }

  lemma GuardingKeepsBooks(memory: FrameContents, sig: SignWords, frames: iset<Frame>, r: RegistryValue, h: History,
                           k: nat, p: Promotion, inPool: bool)
    requires GroupBooks(memory, sig, frames, r, h) && DifferentPromotions(memory, h.promotions)
    requires k < |h.promotions| && StageAgrees(h.promotions[k], Joined)
    requires var (cow, status) := Registered(r.cow, h.promotions[k].frame, inPool);
             p == h.promotions[k].(guarded := status == Success,
                                   entered := h.promotions[k].frame !in r.cow && h.promotions[k].frame in cow)
    ensures GroupBooks(memory, sig, frames, r.(cow := Registered(r.cow, h.promotions[k].frame, inPool).0),
                       h.(promotions := h.promotions[k := p]))
  {
    var base, after := Base(memory, h), h.promotions[k := p];
    GroupsAfterGuard(memory, sig, base, h.promotions, k, p);
    GuardingBalances(h.leftover.cow, h.promotions, h.faulted, r.cow, k, p, inPool);
    GuardingHolds(memory, h.leftover.cow, h.promotions, h.faulted, r.cow, k, p);
    hide Represents, GroupsOf, Created, RegistrationsBalance, GuardsHold, LeftoverIsOther, ByContent, Registered;
  }

  lemma GuardingBalances(leftover: set<Frame>, promotions: seq<Promotion>, faulted: seq<Frame>, cow: set<Frame>,
                         k: nat, p: Promotion, inPool: bool)
    requires RegistrationsBalance(leftover, promotions, faulted, cow)
    requires k < |promotions| && !promotions[k].entered && p.frame == promotions[k].frame
    requires p.entered == (p.frame !in cow && p.frame in Registered(cow, p.frame, inPool).0)
    ensures RegistrationsBalance(leftover, promotions[k := p], faulted, Registered(cow, p.frame, inPool).0)
  {
    EnteredAfterGuard(promotions, k, p);
    hide Entered;
    EnteringGrows(cow, [], p.frame);
    BothSidesGrow(multiset(cow), multiset(faulted), multiset(leftover), multiset(Entered(promotions)),
                  if p.entered then multiset{p.frame} else multiset{});
  }

  lemma GuardingHolds(memory: FrameContents, leftover: set<Frame>, promotions: seq<Promotion>, faulted: seq<Frame>,
                      cow: set<Frame>, k: nat, p: Promotion)
    requires RegistrationsBalance(leftover, promotions, faulted, cow) && GuardsHold(leftover, promotions)
    requires DifferentPromotions(memory, promotions) && k < |promotions| && p.frame == promotions[k].frame
    requires !promotions[k].entered && GuardHolds(cow, p)
    ensures GuardsHold(leftover, promotions[k := p])
  {
    if p.frame in cow {
      EntryIsEntered(leftover, promotions, faulted, cow, p.frame);
      EnteredIsPromoted(promotions, p.frame);
      assert p.frame in leftover;
    }
    hide Entered, RegistrationsBalance;
    var after := promotions[k := p];
    forall a | 0 <= a < |after|
      ensures GuardHolds(leftover, after[a])
    {
      assert a != k ==> after[a] == promotions[a];
    }
  }

  // ----- entering a page -----

  /** The addition that runs all its sections at once. */
  function AtOnce(f: Frame, inPool: bool, tree: Shape): Event {
    Observe(f, Allocation(inPool, true, true), Trees(tree, Leaf))
  }

  /** On the page table entering is the addition; where it promotes nothing it is all of it. */
  lemma EnteringIsAddition(memory: FrameContents, sig: SignWords, x: State, f: Frame, inPool: bool, tree: Shape)
    ensures var r, h, s := x.run.registry, x.run.history, sig(memory(f));
            var heads := PromotedHead(memory, r.pages, tree, f, s);
            var at := Step(memory, sig, x.run, AtOnce(f, inPool, tree));
            var after := Entering(memory, sig, x, f, inPool, tree);
            && after.run.registry == r.(pages := at.registry.pages)
            && after.run.history.seen == at.history.seen
            && (heads == [] ==> after == x.(run := at))
            && (heads != [] ==>
                  && after.stages == x.stages + [Waiting]
                  && after.run.history == h.(seen := at.history.seen,
                                             promotions := h.promotions + [Promotion(heads[0], false, false, false)]))
  {
    hide Search, MarkedShared, PromotionBy, Promotes, Flagged, NewEntry, Inserted;
    var r, s := x.run.registry, sig(memory(f));
    var at := Search(memory, r.pages, tree, Key(s, f));
    if at.Found? {
      var e := r.pages[at.index];
      MarkingKeepsPages(memory, r.(pages := r.pages[at.index := Flagged(e, f)]), Leaf, e.head, e.signature,
                        Allocation(inPool, true, true));
    }
  }

  lemma PromotedHeadMeans(memory: FrameContents, sig: SignWords, frames: iset<Frame>, r: Run, tree: Shape, f: Frame)
    requires Contiguous(memory, sig, frames) && Invariant(memory, sig, frames, r) && f in frames
    ensures var m, c := Grouped(memory, sig, r.history.seen), memory(f);
            var heads := if c in m && Promotes(m[c], f) then [m[c].head] else [];
            PromotedHead(memory, r.registry.pages, tree, f, sig(c)) == heads
  {
    hide Contiguous, Search, Represents, Promotes, Grouped, GroupBooks, AreSharedEntries, DuplicateEntries;
    SearchByContent(memory, sig, frames, r.registry.pages, Grouped(memory, sig, r.history.seen), tree, f);
    assert KeyOf(memory, sig, f) == Key(sig(memory(f)), f);
  }

  /** A promotion that waits changes nothing yet. */
  lemma WaitingKeepsBooks(memory: FrameContents, sig: SignWords, frames: iset<Frame>, r: RegistryValue, h: History,
                          head: Frame)
    requires GroupBooks(memory, sig, frames, r, h)
    ensures GroupBooks(memory, sig, frames, r, h.(promotions := h.promotions + [Promotion(head, false, false, false)]))
  {
    hide Represents, GroupsOf, Created, Entered, LeftoverIsOther, ByContent, GuardsHold, PromotedIn;
    var p := Promotion(head, false, false, false);
    HistoryExtends(memory, sig, Base(memory, h), h.promotions, p);
    assert Entered(h.promotions + [p]) == Entered(h.promotions);
    WaitingGuardsHold(h.leftover.cow, h.promotions, head);
  }

  lemma WaitingGuardsHold(leftover: set<Frame>, promotions: seq<Promotion>, head: Frame)
    requires GuardsHold(leftover, promotions)
    ensures GuardsHold(leftover, promotions + [Promotion(head, false, false, false)])
  {}

  lemma EnteringKeepsInvariant(memory: FrameContents, sig: SignWords, frames: iset<Frame>, x: State, f: Frame,
                               inPool: bool, tree: Shape)
    requires Contiguous(memory, sig, frames) && Invariant(memory, sig, frames, x.run) && f in frames
    ensures Invariant(memory, sig, frames, Entering(memory, sig, x, f, inPool, tree).run)
  {
    hide Represents, AreSharedEntries, DuplicateEntries, GroupBooks, Promotes, Contiguous, AddedIn, MarkedShared,
         PromotionBy, Grouped, HasPromotion, Step, Entering, PromotedHead, GroupsOf;
    var r, h, m, e := x.run.registry, x.run.history, Grouped(memory, sig, x.run.history.seen), AtOnce(f, inPool, tree);
    EnteringIsAddition(memory, sig, x, f, inPool, tree);
    PromotedHeadMeans(memory, sig, frames, x.run, tree, f);
    if PromotedHead(memory, r.pages, tree, f, sig(memory(f))) == [] {
      StepKeepsInvariant(memory, sig, frames, x.run, e);
    } else {
      LaterOutcome(memory, sig, frames, x.run, e);
      StepRepresents(memory, sig, frames, x.run, e);
      var head, after := m[memory(f)].head, Entering(memory, sig, x, f, inPool, tree).run;
      var p := Promotion(head, false, false, false);
      PromotingAdditionKeepsShared(memory, m, h.promotions, f, sig(memory(f)), p);
      AddedInKeepsGrouping(memory, sig, h.seen, f);
      WaitingKeepsBooks(memory, sig, frames, r, h, head);
      SameBooks(memory, sig, frames, r, h.(promotions := h.promotions + [p]), after.registry, after.history);
    }
  }

  // ----- every section keeps the invariant -----

  lemma PromotedIsTracked(memory: FrameContents, sig: SignWords, frames: iset<Frame>, r: Run, k: nat)
    requires Invariant(memory, sig, frames, r) && k < |r.history.promotions|
    ensures r.history.promotions[k].frame in frames
  {
    var m, f := Grouped(memory, sig, r.history.seen), r.history.promotions[k].frame;
    hide Grouped, GroupBooks, IsTidy, DuplicateEntries;
    assert IsSharedHead(memory, m, f);
    var i := EntryOfContent(memory, sig, frames, r.registry.pages, m, memory(f));
    TidyFacts(memory, sig, frames, r.registry.pages[i]);
  }

  lemma JoiningKeepsInvariant(memory: FrameContents, sig: SignWords, frames: iset<Frame>, x: State, k: nat,
                              inPool: bool, tree: Shape)
    requires Contiguous(memory, sig, frames) && SectionInvariant(memory, sig, frames, x)
    requires IsEnabled(x, JoinGroup(k, inPool, tree))
    ensures SectionInvariant(memory, sig, frames, Joining(memory, sig, x, k, inPool, tree))
  {
    hide Contiguous, Represents, Grouped, GroupBooks, DuplicateEntries, Promoted, HasPromotion, IsSharedHead;
    var r, h, p := x.run.registry, x.run.history, x.run.history.promotions[k];
    var (groups, status) := Promoted(memory, r.groups, tree, p.frame, sig(memory(p.frame)), inPool);
    PromotedIsTracked(memory, sig, frames, x.run, k);
    JoiningKeepsBooks(memory, sig, frames, r, h, k, tree, inPool);
    SameFramesAreSharedEntries(memory, Grouped(memory, sig, h.seen), h.promotions, k,
                               p.(grouped := status == Success));
    assert StageAgrees(p, Waiting);
    hide AreSharedEntries;
  }

  lemma GuardingKeepsInvariant(memory: FrameContents, sig: SignWords, frames: iset<Frame>, x: State, k: nat,
                               inPool: bool)
    requires SectionInvariant(memory, sig, frames, x) && IsEnabled(x, GuardPage(k, inPool))
    ensures SectionInvariant(memory, sig, frames, Guarding(x, k, inPool))
  {
    hide Represents, Grouped, GroupBooks, DuplicateEntries, HasPromotion, IsSharedHead, Registered;
    var r, h, p := x.run.registry, x.run.history, x.run.history.promotions[k];
    var (cow, status) := Registered(r.cow, p.frame, inPool);
    var done := p.(guarded := status == Success, entered := p.frame !in r.cow && p.frame in cow);
    assert StageAgrees(p, Joined);
    GuardingKeepsBooks(memory, sig, frames, r, h, k, done, inPool);
    SameFramesAreSharedEntries(memory, Grouped(memory, sig, h.seen), h.promotions, k, done);
    hide AreSharedEntries;
  }

  lemma EnteringKeepsStages(memory: FrameContents, sig: SignWords, x: State, f: Frame, inPool: bool, tree: Shape)
    requires StagesAgree(x.run.history.promotions, x.stages)
    ensures var after := Entering(memory, sig, x, f, inPool, tree);
            StagesAgree(after.run.history.promotions, after.stages)
  {
    hide PageEntered, PromotedHead;
  }

  ghost predicate IsTrackedSection(frames: iset<Frame>, e: Section) {
    (e.EnterPage? ==> e.frame in frames) && (e.DrainAll? ==> 0 in frames)
  }

  lemma EnteringKeepsSectionInvariant(memory: FrameContents, sig: SignWords, frames: iset<Frame>, x: State, f: Frame,
                                      inPool: bool, tree: Shape)
    requires Contiguous(memory, sig, frames) && SectionInvariant(memory, sig, frames, x) && f in frames
    ensures SectionInvariant(memory, sig, frames, Entering(memory, sig, x, f, inPool, tree))
  {
    hide Contiguous, Invariant, Entering, StagesAgree;
    EnteringKeepsInvariant(memory, sig, frames, x, f, inPool, tree);
    EnteringKeepsStages(memory, sig, x, f, inPool, tree);
  }

  lemma FaultKeepsSectionInvariant(memory: FrameContents, sig: SignWords, frames: iset<Frame>, x: State, e: Event)
    requires SectionInvariant(memory, sig, frames, x) && e.Fault?
    ensures SectionInvariant(memory, sig, frames, x.(run := Step(memory, sig, x.run, e)))
  {
    hide Invariant, StagesAgree, AddedPage, PromotionsBy, Drained, FaultHandled;
    FaultKeepsInvariant(memory, sig, frames, x.run, e);
  }

  lemma DrainKeepsSectionInvariant(memory: FrameContents, sig: SignWords, frames: iset<Frame>, x: State, e: Event)
    requires Contiguous(memory, sig, frames) && 0 in frames && SectionInvariant(memory, sig, frames, x) && e.Drain?
    ensures SectionInvariant(memory, sig, frames, State(Step(memory, sig, x.run, e), []))
  {
    hide Contiguous, Invariant, Drained;
    DrainKeepsInvariant(memory, sig, frames, x.run, e.drainTrees);
  }

  lemma SectionKeepsInvariant(memory: FrameContents, sig: SignWords, frames: iset<Frame>, x: State, e: Section)
    requires Contiguous(memory, sig, frames) && SectionInvariant(memory, sig, frames, x)
    requires IsEnabled(x, e) && IsTrackedSection(frames, e)
    ensures SectionInvariant(memory, sig, frames, After(memory, sig, x, e))
  {
    hide Contiguous, SectionInvariant, Entering, Joining, Guarding, Step, AllSettled;
    match e
    case EnterPage(f, inPool, tree) => EnteringKeepsSectionInvariant(memory, sig, frames, x, f, inPool, tree);
    case JoinGroup(k, inPool, tree) => JoiningKeepsInvariant(memory, sig, frames, x, k, inPool, tree);
    case GuardPage(k, inPool) => GuardingKeepsInvariant(memory, sig, frames, x, k, inPool);
    case HandleFault(address, write, copied) =>
      FaultKeepsSectionInvariant(memory, sig, frames, x, Fault(address, write, copied));
    case DrainAll(trees) => DrainKeepsSectionInvariant(memory, sig, frames, x, Drain(trees));
  }

  // ----- every interleaving -----

  const QUIET := State(StartingFrom(EMPTY), [])

  ghost predicate IsTrace(memory: FrameContents, sig: SignWords, states: seq<State>, sections: seq<Section>) {
    && |states| == |sections| + 1 && states[0] == QUIET
    && forall i :: 0 <= i < |sections| ==> Follows(memory, sig, states[i], sections[i], states[i + 1])
  }

  ghost predicate Follows(memory: FrameContents, sig: SignWords, x: State, e: Section, x': State) {
    IsEnabled(x, e) && x' == After(memory, sig, x, e)
  }

  lemma {:induction false} TraceKeepsInvariant(memory: FrameContents, sig: SignWords, frames: iset<Frame>,
                                               states: seq<State>, sections: seq<Section>, i: nat)
    requires Contiguous(memory, sig, frames) && IsTrace(memory, sig, states, sections) && i < |states|
    requires forall j :: 0 <= j < |sections| ==> IsTrackedSection(frames, sections[j])
    ensures SectionInvariant(memory, sig, frames, states[i])
  {
    hide Contiguous, SectionInvariant, After, IsEnabled, IsTrackedSection;
    if i == 0 {
      QuietIsInvariant(memory, sig, frames);
    } else {
      TraceKeepsInvariant(memory, sig, frames, states, sections, i - 1);
      assert Follows(memory, sig, states[i - 1], sections[i - 1], states[(i - 1) + 1]);
      SectionKeepsInvariant(memory, sig, frames, states[i - 1], sections[i - 1]);
    }
  }

  lemma QuietIsInvariant(memory: FrameContents, sig: SignWords, frames: iset<Frame>)
    ensures SectionInvariant(memory, sig, frames, QUIET)
  {
    NothingSeen(memory, sig, frames);
    StartKeepsInvariant(memory, sig, frames, EMPTY, map[]);
    hide Invariant;
  }

  /** At every moment of every interleaving the page table is the grouping and the books balance. */
  lemma TraceIsGroupedAndBalanced(memory: FrameContents, sig: SignWords, frames: iset<Frame>, states: seq<State>,
                                  sections: seq<Section>, i: nat)
    requires Contiguous(memory, sig, frames) && IsTrace(memory, sig, states, sections) && i < |states|
    requires forall j :: 0 <= j < |sections| ==> IsTrackedSection(frames, sections[j])
    ensures IsGroupedAndBalanced(memory, sig, frames, states[i].run)
  {
    hide Contiguous, IsTrace, Invariant, IsGroupedAndBalanced, StagesAgree, IsTrackedSection;
    TraceKeepsInvariant(memory, sig, frames, states, sections, i);
    InvariantIsBalanced(memory, sig, frames, states[i].run);
  }

  // ----- how far the tables lag -----

  function Staged(stages: seq<Stage>, stage: Stage): nat {
    if stages == [] then 0
    else Staged(stages[..|stages| - 1], stage) + (if stages[|stages| - 1] == stage then 1 else 0)
  }

  /** Every promotion that is settled got its group and its registration. */
  ghost predicate SettledAreServed(promotions: seq<Promotion>, stages: seq<Stage>)
    requires |promotions| == |stages|
  {
    forall k :: 0 <= k < |stages| && stages[k] == Settled ==> promotions[k].grouped && promotions[k].guarded
  }

  lemma {:induction false} FailuresAreUnderWay(promotions: seq<Promotion>, stages: seq<Stage>)
    requires StagesAgree(promotions, stages) && SettledAreServed(promotions, stages)
    ensures FailedGroups(promotions) == Staged(stages, Waiting)
    ensures FailedGuards(promotions) == Staged(stages, Joined)
  {
    if stages != [] {
      var n := |stages| - 1;
      assert StageAgrees(promotions[n], stages[n]);
      FailuresAreUnderWay(promotions[..n], stages[..n]);
    }
  }

  ghost predicate IsServedSection(e: Section) {
    match e
    case EnterPage(_, inPool, _) => inPool
    case JoinGroup(_, inPool, _) => inPool
    case GuardPage(_, inPool) => inPool
    case _ => true
  }

  ghost predicate IsServedState(x: State) {
    |x.run.history.promotions| == |x.stages| && SettledAreServed(x.run.history.promotions, x.stages)
  }

  lemma ServedSectionKeepsServed(memory: FrameContents, sig: SignWords, x: State, e: Section)
    requires IsEnabled(x, e) && IsServedSection(e) && IsServedState(x)
    requires StagesAgree(x.run.history.promotions, x.stages)
    ensures IsServedState(After(memory, sig, x, e))
  {
    hide PageEntered, PromotedHead, Search, Observed, FaultHandled, Drained;
    if e.GuardPage? {
      assert StageAgrees(x.run.history.promotions[e.promotion], Joined);
    }
  }

  lemma {:induction false} ServedTrace(memory: FrameContents, sig: SignWords, frames: iset<Frame>, states: seq<State>,
                                       sections: seq<Section>, i: nat)
    requires Contiguous(memory, sig, frames) && IsTrace(memory, sig, states, sections) && i < |states|
    requires forall j :: 0 <= j < |sections| ==> IsTrackedSection(frames, sections[j]) && IsServedSection(sections[j])
    ensures IsServedState(states[i])
  {
    hide Contiguous, Invariant, After, IsEnabled, IsTrackedSection, IsServedSection, StagesAgree, SettledAreServed;
    if i == 0 {
      NothingUnderWay();
    } else {
      ServedTrace(memory, sig, frames, states, sections, i - 1);
      TraceKeepsInvariant(memory, sig, frames, states, sections, i - 1);
      assert Follows(memory, sig, states[i - 1], sections[i - 1], states[(i - 1) + 1]);
      ServedSectionKeepsServed(memory, sig, states[i - 1], sections[i - 1]);
    }
  }

  lemma NothingUnderWay()
    ensures IsServedState(QUIET)
  {}

  /** With a pool that never refuses, and from a drain that left nothing, the groups lag behind the
      duplicates by exactly the promotions that wait for their group, and the protected frames,
      with the faults handled, lag behind the groups by exactly those that wait for their
      registration. */
  lemma TablesLagByPendingPromotions(memory: FrameContents, sig: SignWords, frames: iset<Frame>, states: seq<State>,
                                     sections: seq<Section>, i: nat)
    requires Contiguous(memory, sig, frames) && IsTrace(memory, sig, states, sections) && i < |states|
    requires forall j :: 0 <= j < |sections| ==> IsTrackedSection(frames, sections[j]) && IsServedSection(sections[j])
    requires states[i].run.history.leftover == EMPTY
    ensures var r, h, stages := states[i].run.registry, states[i].run.history, states[i].stages;
            && |r.groups| == DuplicateEntries(r.pages) - Staged(stages, Waiting)
            && |r.cow| == |r.groups| - Staged(stages, Joined) - |h.faulted|
  {
    hide Contiguous, Invariant, IsTrace, IsTrackedSection, IsServedSection, StagesAgree, SettledAreServed,
         DuplicateEntries, Staged, FailedGroups, FailedGuards;
    var x := states[i];
    TraceKeepsInvariant(memory, sig, frames, states, sections, i);
    ServedTrace(memory, sig, frames, states, sections, i);
    FreshStateBooks(memory, sig, frames, x.run);
    FailuresAreUnderWay(x.run.history.promotions, x.stages);
  }

  // ----- the addition that runs all its sections at once -----

  /** The sections of one addition, one after the other. */
  function AllSections(memory: FrameContents, sig: SignWords, x: State, f: Frame, pool: Allocation, trees: Trees): State
    requires |x.stages| == |x.run.history.promotions|
  {
    var k, entered := |x.stages|, Entering(memory, sig, x, f, pool.page, trees.pages);
    if |entered.stages| == k then entered
    else
      var joined := Joining(memory, sig, entered, k, pool.group, trees.groups);
      if joined.stages[k] == Joined then Guarding(joined, k, pool.cow) else joined
  }

  /** The atomic addition of the other laws is that sequence. */
  lemma AdditionIsItsSections(memory: FrameContents, sig: SignWords, frames: iset<Frame>, x: State, f: Frame,
                              pool: Allocation, trees: Trees)
    requires Contiguous(memory, sig, frames) && SectionInvariant(memory, sig, frames, x) && f in frames
    ensures AllSections(memory, sig, x, f, pool, trees).run == Step(memory, sig, x.run, Observe(f, pool, trees))
    ensures AllSettled(x.stages) ==> AllSettled(AllSections(memory, sig, x, f, pool, trees).stages)
  {
    hide Contiguous, Invariant, Search, Promoted, Registered, Promotes, Flagged, Inserted, NewEntry, Drained,
         FaultHandled;
    var r, h, s := x.run.registry, x.run.history, sig(memory(f));
    var at := Search(memory, r.pages, trees.pages, Key(s, f));
    hide Represents, Matches;
    if at.Found? {
      FoundSignature(memory, sig, frames, x.run, at.index);
      assert (h.promotions + [Promotion(r.pages[at.index].head, false, false, false)])[|h.promotions|]
          == Promotion(r.pages[at.index].head, false, false, false);
    }
  }

  lemma FoundSignature(memory: FrameContents, sig: SignWords, frames: iset<Frame>, r: Run, k: nat)
    requires Invariant(memory, sig, frames, r) && k < |r.registry.pages|
    ensures r.registry.pages[k].signature == sig(memory(r.registry.pages[k].head))
  {
    hide Grouped, GroupBooks, AreSharedEntries, DuplicateEntries;
    TidyAt(memory, sig, frames, r.registry.pages, Grouped(memory, sig, r.history.seen), k);
  }

  // ----- a drain between the sections of an addition -----

  /** A drain that runs after an addition flagged its entry and before the promotion: it finds
      nothing to unmark, and the promotion then leaves a group and a protected frame that no later
      drain takes out, even when frame 0 holds the words of the frame. */
  lemma DrainBetweenSections(memory: FrameContents, f: Frame, g: Frame, s: PageSignature, tree: Shape,
                             trees: DrainTrees, later: DrainTrees)
    requires f != g
    ensures var flagged := RegistryValue([Flagged(NewEntry(f, s), g)], [], {});
            var drained := Drained(memory, flagged, trees);
            var promoted := MarkedShared(memory, drained, tree, f, s, Allocation(true, true, true)).0;
            && Promotes(NewEntry(f, s), g) && drained == EMPTY
            && promoted == RegistryValue([], [NewEntry(f, s)], {f}) && Drained(memory, promoted, later) == promoted
  {
    hide Drained, MarkedShared, Flagged;
    DrainOfFlagged(memory, f, g, s, trees);
    MarkingInEmptyTables(memory, f, s, tree);
    FlaggingPromotes(f, g, s);
    DrainOfNoPages(memory, RegistryValue([], [NewEntry(f, s)], {f}), later);
  }

  lemma FlaggingPromotes(f: Frame, g: Frame, s: PageSignature)
    requires f != g
    ensures Promotes(NewEntry(f, s), g)
  {}

  lemma DrainOfNoPages(memory: FrameContents, r: RegistryValue, trees: DrainTrees)
    requires r.pages == []
    ensures Drained(memory, r, trees) == r
  {}

  lemma MarkingInEmptyTables(memory: FrameContents, f: Frame, s: PageSignature, tree: Shape)
    ensures MarkedShared(memory, EMPTY, tree, f, s, Allocation(true, true, true)).0
         == RegistryValue([], [NewEntry(f, s)], {f})
  {
    hide NewEntry, Search, Inserted, Observed;
    NothingInNothing(memory, tree, Key(s, f));
    assert Inserted([], 0, NewEntry(f, s)) == [NewEntry(f, s)];
  }

  lemma NothingInNothing(memory: FrameContents, tree: Shape, key: Key)
    ensures Search(memory, [], tree, key) == Absent(0)
  {}

  lemma DrainOfFlagged(memory: FrameContents, f: Frame, g: Frame, s: PageSignature, trees: DrainTrees)
    ensures Drained(memory, RegistryValue([Flagged(NewEntry(f, s), g)], [], {}), trees) == EMPTY
  {
    var flagged := RegistryValue([Flagged(NewEntry(f, s), g)], [], {});
    FlaggedIsPageTable(f, g, s);
    DrainEnds(memory, flagged, trees);
    NothingToUnmark(memory, flagged, trees, flagged.pages[0].frames, flagged.pages[0].signature);
    hide IsPageTable, AllUnmarked, Flagged, Erased, NewEntry;
    DeletionFindsEntry(memory, flagged.pages, trees.pages(1), 0);
  }

  lemma FlaggedIsPageTable(f: Frame, g: Frame, s: PageSignature)
    ensures IsPageTable([Flagged(NewEntry(f, s), g)])
  {}

  lemma {:induction false} NothingToUnmark(memory: FrameContents, r: RegistryValue, trees: DrainTrees,
                                           listed: seq<Frame>, s: PageSignature)
    requires r.groups == []
    ensures AllUnmarked(memory, r, trees, listed, s) == r
  {
    if listed != [] {
      NothingToUnmark(memory, r, trees, listed[1..], s);
    }
  }
}
