/** What holds over every run of the registry, whatever the shapes of the trees, when contents
    are contiguous. */
module RegistryBooks {
  import opened Pages
  import opened PageOrder
  import opened Registry
  import opened FrameOrder
  import opened OrderedTables
  import opened Grouping
  import opened Draining
  import opened RegistryRuns

  // ----- the page table and its promotions -----

  /** An observation that promotes nothing leaves the flags as they were. */
  lemma PlainAdditionKeepsShared(memory: FrameContents, m: ContentTable, promotions: seq<Promotion>, f: Frame,
                                 s: PageSignature)
    requires AreSharedEntries(memory, m, promotions)
    requires memory(f) in m ==> m[memory(f)].frames != [] && !Promotes(m[memory(f)], f)
    ensures AreSharedEntries(memory, AddedIn(memory, m, f, s), promotions)
  {
    var c, m' := memory(f), AddedIn(memory, m, f, s);
    assert c in m ==> m'[c].shared == m[c].shared && m'[c].head == m[c].head;
    assert c !in m ==> !m'[c].shared;
    hide Flagged, Observed, NewEntry, HasPromotion, Promotes;
    forall a | 0 <= a < |promotions|
      ensures IsSharedHead(memory, m', promotions[a].frame)
    {
      assert IsSharedHead(memory, m, promotions[a].frame);
    }
  }

  /** An observation that promotes adds the promotion of the entry's head. */
  lemma PromotingAdditionKeepsShared(memory: FrameContents, m: ContentTable, promotions: seq<Promotion>, f: Frame,
                                     s: PageSignature, p: Promotion)
    requires AreSharedEntries(memory, m, promotions)
    requires memory(f) in m && m[memory(f)].frames != [] && Promotes(m[memory(f)], f)
    requires p.frame == m[memory(f)].head && memory(p.frame) == memory(f)
    ensures AreSharedEntries(memory, AddedIn(memory, m, f, s), promotions + [p])
    ensures !HasPromotion(memory, promotions, memory(f))
  {
    var c, m', extended := memory(f), AddedIn(memory, m, f, s), promotions + [p];
    assert !m[c].shared && m'[c].shared && m'[c].head == p.frame;
    hide Flagged, Observed, NewEntry, Promotes;
    forall a | 0 <= a < |promotions|
      ensures memory(promotions[a].frame) != c && IsSharedHead(memory, m', promotions[a].frame)
    {
      assert IsSharedHead(memory, m, promotions[a].frame);
    }
    forall x | x in m' && m'[x].shared
      ensures HasPromotion(memory, extended, x)
    {
      if x == c {
        assert extended[|promotions|] == p;
      } else {
        assert HasPromotion(memory, promotions, x);
        var a :| 0 <= a < |promotions| && memory(promotions[a].frame) == x;
        assert extended[a] == promotions[a];
      }
    }
  }

  /** An updated entry becomes a duplicate exactly when it is promoted. */
  lemma PromotedIsNewDuplicate(memory: FrameContents, sig: SignWords, seen: seq<Frame>, f: Frame)
    requires memory(f) in Grouped(memory, sig, seen)
    ensures var e := Grouped(memory, sig, seen)[memory(f)];
            && (e.referenceCount > 1 ==> !Promotes(e, f) && Flagged(e, f).referenceCount > 1)
            && (e.referenceCount <= 1 ==> (Promotes(e, f) <==> Flagged(e, f).referenceCount > 1))
  {
    hide Grouped;
    GroupedEntry(memory, sig, seen, memory(f));
  }

  // ----- marking the promoted page -----

  lemma MarkingOutcome(memory: FrameContents, sig: SignWords, frames: iset<Frame>, r: RegistryValue,
                       m: ContentTable, tree: Shape, head: Frame, pool: Allocation)
    requires Contiguous(memory, sig, frames) && head in frames && Represents(memory, sig, frames, r.groups, m)
    ensures var s, c := sig(memory(head)), memory(head);
            var after, p := MarkedShared(memory, r, tree, head, s, pool).0, PromotionBy(memory, r, tree, head, s, pool);
            && Represents(memory, sig, frames, after.groups,
                          if p.grouped then PromotedIn(memory, m, head, s, true) else m)
            && |after.groups| == |r.groups| + (if p.grouped && c !in m then 1 else 0)
            && after.cow == r.cow + (if p.entered then {head} else {}) && (p.entered ==> head !in r.cow)
            && GuardHolds(r.cow, p) && p.frame == head && (pool == Allocation(true, true, true) ==> p.guarded)
  {
    hide Promoted, Contiguous, Represents, Observed, NewEntry;
    PromotedRepresents(memory, sig, frames, r.groups, m, tree, head, pool.group);
  }

  lemma PromotesItsHead(memory: FrameContents, r: RegistryValue, tree: Shape, head: Frame, s: PageSignature,
                        pool: Allocation)
    ensures PromotionBy(memory, r, tree, head, s, pool).frame == head
  {
    hide MarkedShared, Promoted;
  }

  lemma MarkingIgnoresPages(memory: FrameContents, r: RegistryValue, pages: TableValue, tree: Shape, head: Frame,
                            s: PageSignature, pool: Allocation)
    ensures var after, after' := MarkedShared(memory, r, tree, head, s, pool).0,
                                 MarkedShared(memory, r.(pages := pages), tree, head, s, pool).0;
            after'.groups == after.groups && after'.cow == after.cow
  {
    hide Promoted, Registered;
  }

  // ----- the books of the groups and of the registrations -----

  lemma EntryIsEntered(leftover: set<Frame>, promotions: seq<Promotion>, faulted: seq<Frame>, cow: set<Frame>, f: Frame)
    requires RegistrationsBalance(leftover, promotions, faulted, cow) && f in cow
    ensures f in leftover || f in Entered(promotions)
  {
    assert f in multiset(cow) + multiset(faulted);
    hide Entered;
  }

  lemma EnteringGrows(cow: set<Frame>, entered: seq<Frame>, f: Frame)
    ensures f !in cow ==> multiset(cow + {f}) == multiset(cow) + multiset{f}
    ensures multiset(entered + [f]) == multiset(entered) + multiset{f}
  {}

  lemma RegistrationsExtend(leftover: set<Frame>, promotions: seq<Promotion>, faulted: seq<Frame>, cow: set<Frame>,
                            p: Promotion)
    requires RegistrationsBalance(leftover, promotions, faulted, cow) && (p.entered ==> p.frame !in cow)
    ensures RegistrationsBalance(leftover, promotions + [p], faulted, cow + (if p.entered then {p.frame} else {}))
  {
    assert (promotions + [p])[..|promotions|] == promotions;
    var entered, extended := Entered(promotions), Entered(promotions + [p]);
    assert extended == entered + (if p.entered then [p.frame] else []);
    hide Entered;
    EnteringGrows(cow, entered, p.frame);
    BothSidesGrow(multiset(cow), multiset(faulted), multiset(leftover), multiset(entered), multiset{p.frame});
    if !p.entered {
      assert extended == entered && cow + {} == cow;
    }
  }

  lemma BothSidesGrow(a: multiset<Frame>, b: multiset<Frame>, c: multiset<Frame>, d: multiset<Frame>,
                      x: multiset<Frame>)
    requires a + b == c + d
    ensures (a + x) + b == c + (d + x)
  {
    forall f: Frame
      ensures ((a + x) + b)[f] == (c + (d + x))[f]
    {
      assert (a + b)[f] == (c + d)[f];
    }
  }

  lemma GuardsExtend(memory: FrameContents, leftover: set<Frame>, promotions: seq<Promotion>, faulted: seq<Frame>,
                     cow: set<Frame>, p: Promotion)
    requires RegistrationsBalance(leftover, promotions, faulted, cow) && GuardsHold(leftover, promotions)
    requires GuardHolds(cow, p) && !HasPromotion(memory, promotions, memory(p.frame))
    ensures GuardsHold(leftover, promotions + [p])
  {
    if p.frame in cow {
      EntryIsEntered(leftover, promotions, faulted, cow, p.frame);
      EnteredIsPromoted(promotions, p.frame);
    }
  }

  /** A first promotion of a content keeps the books. */
  lemma PromotionKeepsBooks(memory: FrameContents, sig: SignWords, frames: iset<Frame>, r: RegistryValue, h: History,
                            tree: Shape, head: Frame, pool: Allocation)
    requires Contiguous(memory, sig, frames) && head in frames && GroupBooks(memory, sig, frames, r, h)
    requires !HasPromotion(memory, h.promotions, memory(head))
    ensures var s := sig(memory(head));
            GroupBooks(memory, sig, frames, MarkedShared(memory, r, tree, head, s, pool).0,
                       h.(promotions := h.promotions + [PromotionBy(memory, r, tree, head, s, pool)]))
  {
    var s, base := sig(memory(head)), Base(memory, h);
    var m, p := GroupsOf(memory, sig, base, h.promotions), PromotionBy(memory, r, tree, head, s, pool);
    MarkingOutcome(memory, sig, frames, r, m, tree, head, pool);
    HistoryExtends(memory, sig, base, h.promotions, p);
    GroupWithoutPromotion(memory, sig, base, h.promotions, memory(head));
    RegistrationsExtend(h.leftover.cow, h.promotions, h.faulted, r.cow, p);
    GuardsExtend(memory, h.leftover.cow, h.promotions, h.faulted, r.cow, p);
    hide Represents, GroupsOf, Created, RegistrationsBalance, GuardsHold, LeftoverIsOther, MarkedShared, PromotionBy,
         PromotedIn, ByContent, Contiguous, HasPromotion;
  }

  lemma FaultKeepsBooks(memory: FrameContents, sig: SignWords, frames: iset<Frame>, r: RegistryValue, h: History,
                        f: Frame)
    requires GroupBooks(memory, sig, frames, r, h) && f in r.cow
    ensures GroupBooks(memory, sig, frames, r.(cow := r.cow - {f}), h.(faulted := h.faulted + [f]))
  {
    hide Represents, GroupsOf, Created, Entered, GuardsHold, LeftoverIsOther, ByContent;
    assert multiset(r.cow - {f}) + multiset{f} == multiset(r.cow);
  }

  // ----- every step keeps the invariant -----

  /** An observation of a content that has no entry. */
  lemma FirstOutcome(memory: FrameContents, sig: SignWords, frames: iset<Frame>, r: Run, e: Event)
    requires Contiguous(memory, sig, frames) && Invariant(memory, sig, frames, r)
    requires e.Observe? && e.frame in frames && memory(e.frame) !in Grouped(memory, sig, r.history.seen)
    ensures var after := Step(memory, sig, r, e);
            && after.history == r.history.(seen := r.history.seen + (if e.pool.page then [e.frame] else []))
            && after.registry == r.registry.(pages := after.registry.pages)
            && DuplicateEntries(after.registry.pages) == DuplicateEntries(r.registry.pages)
  {
    hide Contiguous, Search, MarkedShared, PromotionBy, Promotes, Flagged, Represents, Grouped,
         DuplicateEntries, Inserted;
    var f, pages := e.frame, r.registry.pages;
    SearchByContent(memory, sig, frames, pages, Grouped(memory, sig, r.history.seen), e.trees.pages, f);
    var at := Search(memory, pages, e.trees.pages, KeyOf(memory, sig, f));
    DuplicatesAfterInsertion(pages, at.index, NewEntry(f, sig(memory(f))));
  }

  /** An observation that finds an entry, as the table's code computes it. */
  lemma FoundOutcome(memory: FrameContents, sig: SignWords, r: Run, e: Event, k: nat)
    requires e.Observe? && Search(memory, r.registry.pages, e.trees.pages, KeyOf(memory, sig, e.frame)) == Found(k)
    ensures var f, pages, h := e.frame, r.registry.pages, r.history;
            var old', pages' := pages[k], pages[k := Flagged(pages[k], f)];
            var p := PromotionBy(memory, r.registry, e.trees.groups, old'.head, old'.signature, e.pool);
            var marked := MarkedShared(memory, r.registry, e.trees.groups, old'.head, old'.signature, e.pool).0;
            var promoted := Run(marked.(pages := pages'), h.(seen := h.seen + [f], promotions := h.promotions + [p]));
            var plain := Run(r.registry.(pages := pages'), h.(seen := h.seen + [f]));
            Step(memory, sig, r, e) == if Promotes(old', f) then promoted else plain
  {
    var f, e' := e.frame, r.registry.pages[k];
    var pages' := r.registry.pages[k := Flagged(e', f)];
    MarkingIgnoresPages(memory, r.registry, pages', e.trees.groups, e'.head, e'.signature, e.pool);
    MarkingKeepsPages(memory, r.registry.(pages := pages'), e.trees.groups, e'.head, e'.signature, e.pool);
    hide Search, MarkedShared, PromotionBy, Promotes, Flagged;
    assert Key(sig(memory(f)), f) == KeyOf(memory, sig, f);
  }

  /** An observation of a content that has an entry. */
  lemma LaterOutcome(memory: FrameContents, sig: SignWords, frames: iset<Frame>, r: Run, e: Event)
    requires Contiguous(memory, sig, frames) && Invariant(memory, sig, frames, r)
    requires e.Observe? && e.frame in frames && memory(e.frame) in Grouped(memory, sig, r.history.seen)
    ensures var f, h, s, c := e.frame, r.history, sig(memory(e.frame)), memory(e.frame);
            var m, after := Grouped(memory, sig, h.seen), Step(memory, sig, r, e);
            var head := m[c].head;
            && m[c].frames != [] && head in frames && memory(head) == c
            && DuplicateEntries(after.registry.pages)
               == DuplicateEntries(r.registry.pages) + (if Promotes(m[c], f) then 1 else 0)
            && after == if Promotes(m[c], f)
                        then Run(MarkedShared(memory, r.registry, e.trees.groups, head, s, e.pool).0
                                   .(pages := after.registry.pages),
                                 h.(seen := h.seen + [f],
                                    promotions := h.promotions
                                      + [PromotionBy(memory, r.registry, e.trees.groups, head, s, e.pool)]))
                        else Run(r.registry.(pages := after.registry.pages), h.(seen := h.seen + [f]))
  {
    hide Contiguous, Search, MarkedShared, PromotionBy, Promotes, Flagged, Represents, Grouped, GroupBooks,
         DuplicateEntries, IsTidy, Step, AreSharedEntries;
    var f, pages, seen := e.frame, r.registry.pages, r.history.seen;
    SearchByContent(memory, sig, frames, pages, Grouped(memory, sig, seen), e.trees.pages, f);
    var k := Search(memory, pages, e.trees.pages, KeyOf(memory, sig, f)).index;
    TidyAt(memory, sig, frames, pages, Grouped(memory, sig, seen), k);
    TidyFacts(memory, sig, frames, pages[k]);
    FoundOutcome(memory, sig, r, e, k);
    DuplicatesAfterUpdate(pages, k, Flagged(pages[k], f));
    PromotedIsNewDuplicate(memory, sig, seen, f);
    GroupedEntry(memory, sig, seen, memory(f));
  }

  lemma PlainObservationKeepsInvariant(memory: FrameContents, sig: SignWords, frames: iset<Frame>, r: Run, e: Event)
    requires Contiguous(memory, sig, frames) && Invariant(memory, sig, frames, r)
    requires e.Observe? && e.frame in frames
    requires var m, c := Grouped(memory, sig, r.history.seen), memory(e.frame);
             c in m ==> !Promotes(m[c], e.frame)
    ensures Invariant(memory, sig, frames, Step(memory, sig, r, e))
  {
    hide Represents, AreSharedEntries, DuplicateEntries, GroupBooks, Promotes, Contiguous, AddedIn, MarkedShared,
         PromotionBy, Grouped;
    var h, m, f := r.history, Grouped(memory, sig, r.history.seen), e.frame;
    AddingKeepsGrouping(memory, sig, frames, r.registry, e.trees, h.seen, f, e.pool);
    PagesOfStep(memory, sig, r, e);
    hide Step;
    if memory(f) in m {
      LaterOutcome(memory, sig, frames, r, e);
    } else {
      FirstOutcome(memory, sig, frames, r, e);
    }
    PlainAdditionKeepsShared(memory, m, h.promotions, f, sig(memory(f)));
    AddedInKeepsGrouping(memory, sig, h.seen, f);
    var after := Step(memory, sig, r, e);
    SameBooks(memory, sig, frames, r.registry, h, after.registry, after.history);
  }

  lemma PromotingObservationKeepsInvariant(memory: FrameContents, sig: SignWords, frames: iset<Frame>, r: Run, e: Event)
    requires Contiguous(memory, sig, frames) && Invariant(memory, sig, frames, r)
    requires e.Observe? && e.frame in frames
    requires var m, c := Grouped(memory, sig, r.history.seen), memory(e.frame);
             c in m && Promotes(m[c], e.frame)
    ensures Invariant(memory, sig, frames, Step(memory, sig, r, e))
  {
    hide Represents, AreSharedEntries, DuplicateEntries, GroupBooks, Promotes, Contiguous, AddedIn, MarkedShared,
         PromotionBy, Grouped, HasPromotion;
    var h, m, f := r.history, Grouped(memory, sig, r.history.seen), e.frame;
    AddingKeepsGrouping(memory, sig, frames, r.registry, e.trees, h.seen, f, e.pool);
    PagesOfStep(memory, sig, r, e);
    hide Step;
    LaterOutcome(memory, sig, frames, r, e);
    var head, s := m[memory(f)].head, sig(memory(f));
    var p := PromotionBy(memory, r.registry, e.trees.groups, head, s, e.pool);
    assert p.frame == head by {
      PromotesItsHead(memory, r.registry, e.trees.groups, head, s, e.pool);
    }
    PromotingAdditionKeepsShared(memory, m, h.promotions, f, s, p);
    AddedInKeepsGrouping(memory, sig, h.seen, f);
    PromotionKeepsBooks(memory, sig, frames, r.registry, h, e.trees.groups, head, e.pool);
    var after := Step(memory, sig, r, e);
    SameBooks(memory, sig, frames, MarkedShared(memory, r.registry, e.trees.groups, head, s, e.pool).0,
              h.(promotions := h.promotions + [p]), after.registry, after.history);
  }

  /** The page table and the observations of a step are those of the addition. */
  lemma PagesOfStep(memory: FrameContents, sig: SignWords, r: Run, e: Event)
    requires e.Observe?
    ensures var (after, status) := AddedPage(memory, r.registry, e.trees, e.frame, sig(memory(e.frame)), e.pool);
            var r' := Step(memory, sig, r, e);
            && r'.registry == after
            && r'.history.seen == if status == Success then r.history.seen + [e.frame] else r.history.seen
  {
    hide AddedPage, PromotionsBy;
  }

  /** The books of the groups look neither at the page table nor at the observations. */
  lemma SameBooks(memory: FrameContents, sig: SignWords, frames: iset<Frame>, r: RegistryValue, h: History,
                  r': RegistryValue, h': History)
    requires GroupBooks(memory, sig, frames, r, h)
    requires r'.groups == r.groups && r'.cow == r.cow && h' == h.(seen := h'.seen)
    ensures GroupBooks(memory, sig, frames, r', h')
  {}

  lemma FaultKeepsInvariant(memory: FrameContents, sig: SignWords, frames: iset<Frame>, r: Run, e: Event)
    requires Invariant(memory, sig, frames, r) && e.Fault?
    ensures Invariant(memory, sig, frames, Step(memory, sig, r, e))
  {
    hide Represents, AreSharedEntries, DuplicateEntries, GroupBooks, Grouped, AddedPage, PromotionsBy;
    if FaultHandled(r.registry, e.address, e.write, e.copied).1 == Success {
      FaultKeepsBooks(memory, sig, frames, r.registry, r.history, e.address.frame);
    }
  }

  // ----- a drain -----

  lemma PromotedIsGrouped(memory: FrameContents, sig: SignWords, base: ContentTable, promotions: seq<Promotion>, a: nat)
    requires DifferentPromotions(memory, promotions) && a < |promotions|
    ensures var m, c := GroupsOf(memory, sig, base, promotions), memory(promotions[a].frame);
            if promotions[a].grouped
            then c in m && (c !in base ==> m[c].frames == [promotions[a].frame])
            else c in m <==> c in base
  {
    if promotions[a].grouped {
      GroupOfPromotion(memory, sig, base, promotions, a);
    } else {
      GroupWithoutPromotion(memory, sig, base, promotions, memory(promotions[a].frame));
    }
    hide GroupsOf, Observed;
  }

  lemma {:induction false} GroupsOnlyGrow(memory: FrameContents, sig: SignWords, base: ContentTable,
                                          promotions: seq<Promotion>)
    ensures base.Keys <= GroupsOf(memory, sig, base, promotions).Keys
  {
    if promotions != [] {
      GroupsOnlyGrow(memory, sig, base, promotions[..|promotions| - 1]);
    }
    hide Observed, NewEntry;
  }

  /** Every protected frame has a group of its content; with the content of frame 0 it was
      promoted since the last drain. */
  lemma ProtectedHasGroup(memory: FrameContents, sig: SignWords, frames: iset<Frame>, r: Run, f: Frame)
    requires Invariant(memory, sig, frames, r) && f in r.registry.cow
    ensures memory(f) in GroupsOf(memory, sig, Base(memory, r.history), r.history.promotions)
    ensures memory(f) == memory(0)
        ==> exists a :: 0 <= a < |r.history.promotions| && r.history.promotions[a].frame == f
  {
    var h, base := r.history, Base(memory, r.history);
    hide Represents, Grouped, GroupsOf, Created, DuplicateEntries, SameEntries, ByContent;
    EntryIsEntered(h.leftover.cow, h.promotions, h.faulted, r.registry.cow, f);
    if f in h.leftover.cow {
      GroupsOnlyGrow(memory, sig, base, h.promotions);
      assert memory(f) in base;
    } else {
      EnteredIsPromoted(h.promotions, f);
      var a :| 0 <= a < |h.promotions| && h.promotions[a].entered && h.promotions[a].frame == f;
      assert GuardHolds(h.leftover.cow, h.promotions[a]);
      PromotedIsGrouped(memory, sig, base, h.promotions, a);
    }
  }

  /** The promotion with the content of frame 0 accounts for everything with that content. */
  lemma ZeroPromotionBinds(memory: FrameContents, sig: SignWords, frames: iset<Frame>, r: Run, a: nat)
    requires Invariant(memory, sig, frames, r)
    requires a < |r.history.promotions| && memory(r.history.promotions[a].frame) == memory(0)
    ensures ZeroBound(memory, GroupsOf(memory, sig, Base(memory, r.history), r.history.promotions), r.registry.cow,
                      r.history.promotions[a].frame)
  {
    var h, base := r.history, Base(memory, r.history);
    var m, head := GroupsOf(memory, sig, base, h.promotions), h.promotions[a].frame;
    hide Represents, Grouped, GroupsOf, Created, DuplicateEntries, SameEntries, ByContent, RegistrationsBalance,
         GuardsHold, IsSharedHead, HasPromotion;
    PromotedIsGrouped(memory, sig, base, h.promotions, a);
    forall f | f in r.registry.cow && memory(f) == memory(0)
      ensures f == head && memory(0) in m
    {
      ProtectedHasGroup(memory, sig, frames, r, f);
    }
  }

  lemma RunIsZeroAccounted(memory: FrameContents, sig: SignWords, frames: iset<Frame>, r: Run)
    requires Invariant(memory, sig, frames, r)
    ensures ZeroAccounted(memory, r.registry, GroupsOf(memory, sig, Base(memory, r.history), r.history.promotions))
  {
    var h, base, pages := r.history, Base(memory, r.history), r.registry.pages;
    var m, seen := GroupsOf(memory, sig, base, h.promotions), Grouped(memory, sig, h.seen);
    hide Grouped, GroupsOf, Created, DuplicateEntries, ByContent, RegistrationsBalance, IsTidy, ZeroBound;
    if a :| 0 <= a < |h.promotions| && memory(h.promotions[a].frame) == memory(0) {
      ZeroPromotionBinds(memory, sig, frames, r, a);
      assert IsSharedHead(memory, seen, h.promotions[a].frame);
      var k := EntryOfContent(memory, sig, frames, pages, seen, memory(0));
      assert IsZeroEntry(memory, m, r.registry.cow, pages[k]);
    } else {
      GroupWithoutPromotion(memory, sig, base, h.promotions, memory(0));
      forall f | f in r.registry.cow
        ensures memory(f) != memory(0)
      {
        ProtectedHasGroup(memory, sig, frames, r, f);
      }
    }
  }

  lemma TidyIsPageTable(memory: FrameContents, sig: SignWords, frames: iset<Frame>, pages: TableValue)
    requires IsTidyTable(memory, sig, frames, pages)
    ensures IsPageTable(pages)
  {
    hide Less, Before, EntryKey;
    var keys := KeysOf(pages);
    forall i, j | 0 <= i < j < |keys|
      ensures Before(keys[i], keys[j])
    {
      LessIsBefore(memory, keys[i], keys[j]);
    }
  }

  /** After any run, with drains before it or not, draining leaves exactly the groups and the
      registrations whose content is not that of frame 0. */
  lemma DrainAfterRun(memory: FrameContents, sig: SignWords, frames: iset<Frame>, r: Run, trees: DrainTrees)
    requires Contiguous(memory, sig, frames) && 0 in frames && Invariant(memory, sig, frames, r)
    ensures Clears(memory, sig, frames, r.registry,
                   GroupsOf(memory, sig, Base(memory, r.history), r.history.promotions),
                   Drained(memory, r.registry, trees))
    ensures Drained(memory, r.registry, trees).pages == []
  {
    var m := GroupsOf(memory, sig, Base(memory, r.history), r.history.promotions);
    hide Grouped, GroupsOf, Created, DuplicateEntries, RegistrationsBalance, IsTidy, ZeroAccounted, Drained,
         Contiguous, Clears, AreSharedEntries;
    RunIsZeroAccounted(memory, sig, frames, r);
    DrainClearsZero(memory, sig, frames, r.registry, m, trees);
    TidyIsPageTable(memory, sig, frames, r.registry.pages);
    DrainEnds(memory, r.registry, trees);
  }

  lemma DrainKeepsInvariant(memory: FrameContents, sig: SignWords, frames: iset<Frame>, r: Run, trees: DrainTrees)
    requires Contiguous(memory, sig, frames) && 0 in frames && Invariant(memory, sig, frames, r)
    ensures Invariant(memory, sig, frames, StartingFrom(Drained(memory, r.registry, trees)))
  {
    var m, after := GroupsOf(memory, sig, Base(memory, r.history), r.history.promotions),
                    Drained(memory, r.registry, trees);
    hide GroupsOf, Drained, Contiguous, Invariant, GroupBooks, Represents, ByContent;
    DrainAfterRun(memory, sig, frames, r, trees);
    forall f | f in after.cow
      ensures memory(f) in m - {memory(0)}
    {
      ProtectedHasGroup(memory, sig, frames, r, f);
    }
    StartKeepsInvariant(memory, sig, frames, after, m - {memory(0)});
  }

  /** Empty page tables start an interval whenever nothing has the content of frame 0. */
  lemma StartKeepsInvariant(memory: FrameContents, sig: SignWords, frames: iset<Frame>, r: RegistryValue,
                            m: ContentTable)
    requires r.pages == [] && Represents(memory, sig, frames, r.groups, m) && memory(0) !in m
    requires forall f :: f in r.cow ==> memory(f) in m
    ensures Invariant(memory, sig, frames, StartingFrom(r))
  {
    GroupsRepresentBase(memory, sig, frames, r.groups, m);
    NothingSeen(memory, sig, frames);
    hide ByContent, IsTidy, IsOrdered, Grouped;
  }

  lemma GroupsRepresentBase(memory: FrameContents, sig: SignWords, frames: iset<Frame>, groups: TableValue,
                            m: ContentTable)
    requires Represents(memory, sig, frames, groups, m)
    ensures m == ByContent(memory, groups)
  {
    hide ByContent, SameEntries, AllTidy, IsOrdered;
    TidyTableRepresents(memory, sig, frames, groups);
    MapIsUnique(memory, sig, frames, groups, m, ByContent(memory, groups));
  }

  lemma NothingSeen(memory: FrameContents, sig: SignWords, frames: iset<Frame>)
    ensures Grouped(memory, sig, []) == map[] && Represents(memory, sig, frames, [], map[])
  {}

  // ----- whole runs -----

  lemma StepKeepsInvariant(memory: FrameContents, sig: SignWords, frames: iset<Frame>, r: Run, e: Event)
    requires Contiguous(memory, sig, frames) && Invariant(memory, sig, frames, r) && IsTracked(frames, e)
    ensures Invariant(memory, sig, frames, Step(memory, sig, r, e))
  {
    hide Contiguous, Invariant, Promotes, Grouped;
    match e
    case Fault(_, _, _) => FaultKeepsInvariant(memory, sig, frames, r, e);
    case Drain(trees) => DrainKeepsInvariant(memory, sig, frames, r, trees);
    case Observe(f, _, _) =>
      var m := Grouped(memory, sig, r.history.seen);
      if memory(f) in m && Promotes(m[memory(f)], f) {
        PromotingObservationKeepsInvariant(memory, sig, frames, r, e);
      } else {
        PlainObservationKeepsInvariant(memory, sig, frames, r, e);
      }
  }

  lemma {:induction false} RunKeepsInvariant(memory: FrameContents, sig: SignWords, frames: iset<Frame>,
                                             events: seq<Event>)
    requires Contiguous(memory, sig, frames) && AllTracked(frames, events)
    ensures Invariant(memory, sig, frames, Reached(memory, sig, events))
  {
    hide Contiguous, Invariant, Step, IsTracked;
    if |events| == 0 {
      StartKeepsInvariant(memory, sig, frames, EMPTY, map[]);
    } else {
      var n := |events| - 1;
      RunKeepsInvariant(memory, sig, frames, events[..n]);
      StepKeepsInvariant(memory, sig, frames, Reached(memory, sig, events[..n]), events[n]);
    }
  }
}
