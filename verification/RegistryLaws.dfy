/** The laws of every run of the registry, and the exact condition under which its page table
    groups frames by content. */
module RegistryLaws {
  import opened Pages
  import opened PageOrder
  import opened Registry
  import opened FrameOrder
  import opened OrderedTables
  import opened Grouping
  import opened Draining
  import opened RegistryRuns
  import opened RegistryBooks

  // ----- the books of every run -----

  lemma {:induction false} EnteredOnce(memory: FrameContents, promotions: seq<Promotion>)
    requires DifferentPromotions(memory, promotions)
    ensures NoDuplicates(Entered(promotions))
  {
    if promotions != [] {
      var n := |promotions| - 1;
      EnteredOnce(memory, promotions[..n]);
      var earlier := Entered(promotions[..n]);
      forall i | 0 <= i < |earlier|
        ensures earlier[i] != promotions[n].frame
      {
        assert earlier[i] in earlier;
        EnteredIsPromoted(promotions[..n], earlier[i]);
      }
    }
  }

  lemma BalanceCounts(leftover: set<Frame>, promotions: seq<Promotion>, faulted: seq<Frame>, cow: set<Frame>)
    requires RegistrationsBalance(leftover, promotions, faulted, cow)
    ensures |cow| + |faulted| == |leftover| + |Entered(promotions)|
  {
    hide Entered;
    var entered := Entered(promotions);
    assert |multiset(cow) + multiset(faulted)| == |cow| + |faulted|;
    assert |multiset(leftover) + multiset(entered)| == |leftover| + |entered|;
  }

  /** The page table is the grouping by content of the frames accepted since the last drain; the
      groups are sound, of one content each and of different contents; a promotion was made for
      each duplicate the health query counts; and groups and registrations are those the last
      drain left and those made since, less the faults handled. */
  ghost predicate IsGroupedAndBalanced(memory: FrameContents, sig: SignWords, frames: iset<Frame>, r: Run) {
    var registry, h := r.registry, r.history;
    && Represents(memory, sig, frames, registry.pages, Grouped(memory, sig, h.seen))
    && IsTidyTable(memory, sig, frames, registry.groups)
    && |h.promotions| == DuplicateEntries(registry.pages)
    && |registry.groups| == |h.leftover.groups| + Created(memory, Base(memory, h), h.promotions)
    && |registry.cow| + |h.faulted| == |h.leftover.cow| + |Entered(h.promotions)|
    && NoDuplicates(Entered(h.promotions))
  }

  lemma InvariantIsBalanced(memory: FrameContents, sig: SignWords, frames: iset<Frame>, r: Run)
    requires Invariant(memory, sig, frames, r)
    ensures IsGroupedAndBalanced(memory, sig, frames, r)
  {
    hide Grouped, Created, Entered, DuplicateEntries, Base, RegistrationsBalance, IsTidy, SameEntries, GroupsOf;
    EnteredOnce(memory, r.history.promotions);
    BalanceCounts(r.history.leftover.cow, r.history.promotions, r.history.faulted, r.registry.cow);
  }

  /** That holds after any events from empty tables. */
  lemma RunIsGroupedAndBalanced(memory: FrameContents, sig: SignWords, frames: iset<Frame>, events: seq<Event>)
    requires Contiguous(memory, sig, frames) && AllTracked(frames, events)
    ensures IsGroupedAndBalanced(memory, sig, frames, Reached(memory, sig, events))
  {
    hide Reached, Contiguous, Invariant, IsGroupedAndBalanced;
    RunKeepsInvariant(memory, sig, frames, events);
    InvariantIsBalanced(memory, sig, frames, Reached(memory, sig, events));
  }

  // ----- runs on any contents -----

  lemma AdditionKeepsPageTable(memory: FrameContents, sig: SignWords, r: RegistryValue, trees: Trees, f: Frame,
                               pool: Allocation)
    requires IsPageTable(r.pages)
    ensures IsPageTable(AddedPage(memory, r, trees, f, sig(memory(f)), pool).0.pages)
  {
    hide IsPageTable, Search, MarkedShared, Flagged, Promotes, Inserted, NewEntry;
    var s := sig(memory(f));
    AddingKeepsPageTable(memory, r.pages, trees.pages, f, s);
    match Search(memory, r.pages, trees.pages, Key(s, f))
    case Absent(_) =>
    case Found(k) =>
      var e := r.pages[k];
      MarkingKeepsPages(memory, r.(pages := r.pages[k := Flagged(e, f)]), trees.groups, e.head, e.signature, pool);
  }

  /** Contiguous contents or not, over all runs the page table stays in order of signature and
      frame number, deleting an entry by its key deletes one of its content, and every drain
      ends with an empty page table. */
  lemma {:induction false} RunKeepsPageTable(memory: FrameContents, sig: SignWords, events: seq<Event>,
                                             trees: DrainTrees)
    ensures IsPageTable(Reached(memory, sig, events).registry.pages)
    ensures Drained(memory, Reached(memory, sig, events).registry, trees).pages == []
  {
    hide IsPageTable, AddedPage, FaultHandled, PromotionsBy, Drained;
    if |events| == 0 {
      NoEntries();
    } else {
      var n := |events| - 1;
      RunKeepsPageTable(memory, sig, events[..n], trees);
      var before := Reached(memory, sig, events[..n]).registry;
      match events[n] {
        case Observe(f, pool, shapes) => AdditionKeepsPageTable(memory, sig, before, shapes, f, pool);
        case Fault(address, write, copied) => FaultKeepsPages(before, address, write, copied);
        case Drain(shapes) =>
          DrainEnds(memory, before, shapes);
          NoEntries();
      }
    }
    DrainEnds(memory, Reached(memory, sig, events).registry, trees);
  }

  /** So at every moment of every run the page table, first entry to last, has hashes that never
      decrease as numbers. */
  lemma RunOrdersHashes(memory: FrameContents, sig: SignWords, events: seq<Event>, i: nat, j: nat)
    requires i < j < |Reached(memory, sig, events).registry.pages|
    ensures var pages := Reached(memory, sig, events).registry.pages;
            && pages[i].signature.hash as nat <= pages[j].signature.hash as nat
            && (pages[i].signature.hash == pages[j].signature.hash ==>
                  pages[i].signature.fingerprint as nat <= pages[j].signature.fingerprint as nat)
            && (pages[i].signature == pages[j].signature ==> pages[i].head < pages[j].head)
  {
    hide Reached, IsPageTable;
    RunKeepsPageTable(memory, sig, events, DrainTrees(_ => Leaf, (_, _) => DemotionTrees(Leaf, Leaf)));
    HashesAscend(Reached(memory, sig, events).registry.pages, i, j);
  }

  lemma NoEntries()
    ensures IsPageTable([])
  {}

  lemma FaultKeepsPages(r: RegistryValue, address: FaultAddress, write: bool, copied: bool)
    ensures FaultHandled(r, address, write, copied).0.pages == r.pages
  {}

  // ----- an interval that starts from empty tables -----

  function FailedGroups(promotions: seq<Promotion>): nat {
    if promotions == [] then 0
    else FailedGroups(promotions[..|promotions| - 1]) + (if promotions[|promotions| - 1].grouped then 0 else 1)
  }

  function FailedGuards(promotions: seq<Promotion>): nat {
    if promotions == [] then 0
    else
      var p := promotions[|promotions| - 1];
      FailedGuards(promotions[..|promotions| - 1]) + (if p.grouped && !p.guarded then 1 else 0)
  }

  lemma {:induction false} PromotionCounts(memory: FrameContents, promotions: seq<Promotion>)
    requires GuardsHold({}, promotions)
    ensures Created(memory, map[], promotions) + FailedGroups(promotions) == |promotions|
    ensures |Entered(promotions)| + FailedGuards(promotions) == Created(memory, map[], promotions)
  {
    if promotions != [] {
      PromotionCounts(memory, promotions[..|promotions| - 1]);
      assert GuardHolds({}, promotions[|promotions| - 1]);
    }
  }

  lemma FreshStateBooks(memory: FrameContents, sig: SignWords, frames: iset<Frame>, r: Run)
    requires Invariant(memory, sig, frames, r) && r.history.leftover == EMPTY
    ensures |r.registry.groups| == DuplicateEntries(r.registry.pages) - FailedGroups(r.history.promotions)
    ensures |r.registry.cow| == |r.registry.groups| - FailedGuards(r.history.promotions) - |r.history.faulted|
  {
    PromotionCounts(memory, r.history.promotions);
    InvariantIsBalanced(memory, sig, frames, r);
    hide Grouped, Created, Entered, DuplicateEntries, RegistrationsBalance, GroupsOf, Represents;
  }

  /** When the last drain left nothing: groups are the duplicates the health query counts less
      those the pool refused, and protected frames are the groups less the registrations the pool
      refused and the faults handled. */
  lemma FreshIntervalBooks(memory: FrameContents, sig: SignWords, frames: iset<Frame>, events: seq<Event>)
    requires Contiguous(memory, sig, frames) && AllTracked(frames, events)
    requires Reached(memory, sig, events).history.leftover == EMPTY
    ensures var r, h := Reached(memory, sig, events).registry, Reached(memory, sig, events).history;
            && |r.groups| == DuplicateEntries(r.pages) - FailedGroups(h.promotions)
            && |r.cow| == |r.groups| - FailedGuards(h.promotions) - |h.faulted|
  {
    hide Reached, Contiguous, Invariant, DuplicateEntries;
    RunKeepsInvariant(memory, sig, frames, events);
    FreshStateBooks(memory, sig, frames, Reached(memory, sig, events));
  }

  /** A run without a drain starts from empty tables. */
  lemma {:induction false} UndrainedStartsEmpty(memory: FrameContents, sig: SignWords, events: seq<Event>)
    requires forall i :: 0 <= i < |events| ==> !events[i].Drain?
    ensures Reached(memory, sig, events).history.leftover == EMPTY
  {
    if |events| > 0 {
      UndrainedStartsEmpty(memory, sig, events[..|events| - 1]);
    }
    hide AddedPage, FaultHandled, PromotionsBy;
  }

  // ----- a pool that never refuses -----

  /** The observations since the last drain. */
  function Observations(events: seq<Event>): seq<Frame> {
    if |events| == 0 then []
    else
      var earlier := Observations(events[..|events| - 1]);
      match events[|events| - 1]
      case Observe(f, _, _) => earlier + [f]
      case Fault(_, _, _) => earlier
      case Drain(_) => []
  }

  ghost predicate IsServed(e: Event) {
    e.Observe? ==> e.pool == Allocation(true, true, true)
  }

  /** Every promotion so far got its group and its registration. */
  ghost predicate AllServed(promotions: seq<Promotion>) {
    forall a :: 0 <= a < |promotions| ==> promotions[a].grouped && promotions[a].guarded
  }

  lemma ServedMarking(memory: FrameContents, r: RegistryValue, tree: Shape, head: Frame, s: PageSignature)
    ensures var p := PromotionBy(memory, r, tree, head, s, Allocation(true, true, true)); p.grouped && p.guarded
  {
    hide Search, Observed;
  }

  lemma ServedStep(memory: FrameContents, sig: SignWords, r: Run, e: Event)
    requires IsServed(e) && AllServed(r.history.promotions)
    ensures var h := Step(memory, sig, r, e).history;
            && AllServed(h.promotions)
            && h.seen == match e
                         case Observe(f, _, _) => r.history.seen + [f]
                         case Fault(_, _, _) => r.history.seen
                         case Drain(_) => []
  {
    if e.Observe? {
      var at := Search(memory, r.registry.pages, e.trees.pages, Key(sig(memory(e.frame)), e.frame));
      if at.Found? {
        var entry := r.registry.pages[at.index];
        ServedMarking(memory, r.registry, e.trees.groups, entry.head, entry.signature);
      }
    }
    hide Search, MarkedShared, PromotionBy, Promotes, Flagged, Drained, FaultHandled, Inserted;
  }

  lemma {:induction false} ServedHistory(memory: FrameContents, sig: SignWords, events: seq<Event>)
    requires forall i :: 0 <= i < |events| ==> IsServed(events[i])
    ensures var h := Reached(memory, sig, events).history;
            h.seen == Observations(events) && AllServed(h.promotions)
  {
    hide Step, AllServed;
    if |events| > 0 {
      var n := |events| - 1;
      ServedHistory(memory, sig, events[..n]);
      ServedStep(memory, sig, Reached(memory, sig, events[..n]), events[n]);
    } else {
      NothingToServe();
    }
  }

  lemma NothingToServe()
    ensures AllServed([])
  {}

  lemma {:induction false} NoFailures(promotions: seq<Promotion>)
    requires AllServed(promotions)
    ensures FailedGroups(promotions) == 0 && FailedGuards(promotions) == 0
  {
    if promotions != [] {
      NoFailures(promotions[..|promotions| - 1]);
    }
  }

  /** With a pool that never refuses, the table groups every observation since the last drain.
      If that drain left nothing, every duplicate entry has a group, and the protected frames are
      the groups less the faults handled. */
  lemma ServedRunBooks(memory: FrameContents, sig: SignWords, frames: iset<Frame>, events: seq<Event>)
    requires Contiguous(memory, sig, frames) && AllTracked(frames, events)
    requires forall i :: 0 <= i < |events| ==> IsServed(events[i])
    ensures var r, h := Reached(memory, sig, events).registry, Reached(memory, sig, events).history;
            && Represents(memory, sig, frames, r.pages, Grouped(memory, sig, Observations(events)))
            && (h.leftover == EMPTY ==>
                  |r.groups| == DuplicateEntries(r.pages) && |r.cow| == |r.groups| - |h.faulted|)
  {
    hide Contiguous, Reached, Grouped, Represents, Created, Entered, DuplicateEntries, Observations;
    var r := Reached(memory, sig, events);
    RunIsGroupedAndBalanced(memory, sig, frames, events);
    ServedHistory(memory, sig, events);
    NoFailures(r.history.promotions);
    if r.history.leftover == EMPTY {
      FreshIntervalBooks(memory, sig, frames, events);
    }
  }

  // ----- groups and shared entries -----

  /** When the pool never refused a group, the contents of the page table that have a group are
      those with one left by the last drain and those of at least two distinct frames.  A group
      not left by the drain lists the entry's head. */
  lemma OneGroupPerSharedEntry(memory: FrameContents, sig: SignWords, frames: iset<Frame>, r: Run, c: Content)
    requires Invariant(memory, sig, frames, r) && HasEntry(memory, r.registry.pages, c)
    requires forall a :: 0 <= a < |r.history.promotions| ==> r.history.promotions[a].grouped
    ensures HasEntry(memory, r.registry.groups, c)
       <==> HasEntry(memory, r.history.leftover.groups, c) || |Distinct(memory, r.history.seen, c)| >= 2
    ensures !HasEntry(memory, r.history.leftover.groups, c) && |Distinct(memory, r.history.seen, c)| >= 2
        ==> NewEntry(Distinct(memory, r.history.seen, c)[0], sig(c)) in r.registry.groups
  {
    var h, base := r.history, Base(memory, r.history);
    var m, groups := Grouped(memory, sig, h.seen), GroupsOf(memory, sig, base, h.promotions);
    ContentsHaveEntries(memory, sig, frames, r.registry.pages, m, c);
    ContentsHaveEntries(memory, sig, frames, r.registry.groups, groups, c);
    BaseContents(memory, h.leftover.groups, base, c);
    SharedExactly(memory, sig, h.seen, c);
    hide Represents, Grouped, GroupsOf, Created, Entered, DuplicateEntries, HasEntry, Distinct, ByContent,
         SameEntries, RegistrationsBalance, NewEntry, Observed;
    if m[c].shared {
      assert HasPromotion(memory, h.promotions, c);
      var a :| 0 <= a < |h.promotions| && memory(h.promotions[a].frame) == c;
      assert IsSharedHead(memory, m, h.promotions[a].frame);
      GroupOfPromotion(memory, sig, base, h.promotions, a);
      if c !in base {
        var i := EntryOfContent(memory, sig, frames, r.registry.groups, groups, c);
      }
    } else {
      forall a | 0 <= a < |h.promotions|
        ensures memory(h.promotions[a].frame) != c
      {
        assert IsSharedHead(memory, m, h.promotions[a].frame);
      }
      GroupWithoutPromotion(memory, sig, base, h.promotions, c);
    }
  }

  /** So with a pool that never refuses, after every run: the contents observed since the last
      drain that have a group are those with one left over and those of two distinct frames. */
  lemma OneGroupPerSharedEntryInRuns(memory: FrameContents, sig: SignWords, frames: iset<Frame>, events: seq<Event>,
                                     f: Frame)
    requires Contiguous(memory, sig, frames) && AllTracked(frames, events)
    requires forall i :: 0 <= i < |events| ==> IsServed(events[i])
    requires f in Observations(events)
    ensures var r, h := Reached(memory, sig, events).registry, Reached(memory, sig, events).history;
            var d := Distinct(memory, Observations(events), memory(f));
            && HasEntry(memory, r.pages, memory(f))
            && (HasEntry(memory, r.groups, memory(f))
                <==> HasEntry(memory, h.leftover.groups, memory(f)) || |d| >= 2)
            && (!HasEntry(memory, h.leftover.groups, memory(f)) && |d| >= 2
                ==> NewEntry(d[0], sig(memory(f))) in r.groups)
  {
    hide Contiguous, Reached, Represents, Created, Entered, DuplicateEntries, Observations, HasEntry, Distinct,
         Invariant, NewEntry;
    var r := Reached(memory, sig, events);
    RunKeepsInvariant(memory, sig, frames, events);
    RunIsGroupedAndBalanced(memory, sig, frames, events);
    ServedHistory(memory, sig, events);
    assert memory(f) in ContentsOf(memory, Observations(events));
    ContentsHaveEntries(memory, sig, frames, r.registry.pages, Grouped(memory, sig, r.history.seen), memory(f));
    OneGroupPerSharedEntry(memory, sig, frames, r, memory(f));
  }

  lemma ContentsHaveEntries(memory: FrameContents, sig: SignWords, frames: iset<Frame>, table: TableValue,
                            m: ContentTable, c: Content)
    requires Represents(memory, sig, frames, table, m)
    ensures HasEntry(memory, table, c) <==> c in m
  {
    hide IsTidy, IsOrdered;
    if HasEntry(memory, table, c) {
      var i :| 0 <= i < |table| && memory(table[i].head) == c;
      assert Lists(memory, m, table[i]);
    }
  }

  lemma BaseContents(memory: FrameContents, groups: TableValue, base: ContentTable, c: Content)
    requires SameEntries(memory, groups, base)
    ensures HasEntry(memory, groups, c) <==> c in base
  {
    if HasEntry(memory, groups, c) {
      var i :| 0 <= i < |groups| && memory(groups[i].head) == c;
      assert Lists(memory, base, groups[i]);
    }
  }

  lemma SharedExactly(memory: FrameContents, sig: SignWords, seen: seq<Frame>, c: Content)
    requires c in Grouped(memory, sig, seen)
    ensures var e, d := Grouped(memory, sig, seen)[c], Distinct(memory, seen, c);
            (e.shared <==> |d| >= 2) && d != [] && e.head == d[0]
  {
    GroupedEntry(memory, sig, seen, c);
    hide Distinct, Unlisted, Grouped;
  }

  // ----- drains -----

  /** A drain leaves no protected frame exactly when all of them hold the words of frame 0, no
      group exactly when all groups do, and then it leaves nothing at all.  Only then do the
      counts agree again. */
  lemma DrainEmptiesExactly(memory: FrameContents, sig: SignWords, frames: iset<Frame>, events: seq<Event>,
                            trees: DrainTrees)
    requires Contiguous(memory, sig, frames) && AllTracked(frames, events) && 0 in frames
    ensures var r := Reached(memory, sig, events).registry;
            var after := Drained(memory, r, trees);
            && (forall g :: g in after.groups <==> g in r.groups && memory(g.head) != memory(0))
            && (forall f :: f in after.cow <==> f in r.cow && memory(f) != memory(0))
            && (after.cow == {} <==> forall f :: f in r.cow ==> memory(f) == memory(0))
            && (after.groups == [] <==> forall g :: g in r.groups ==> memory(g.head) == memory(0))
            && (after == EMPTY <==> after.groups == [])
            && (|after.groups| == DuplicateEntries(after.pages) <==> after == EMPTY)
  {
    hide Reached, Contiguous, Drained, Invariant, GroupsOf, Represents, Base, DuplicateEntries;
    var r := Reached(memory, sig, events);
    var after := Drained(memory, r.registry, trees);
    var m := GroupsOf(memory, sig, Base(memory, r.history), r.history.promotions);
    RunKeepsInvariant(memory, sig, frames, events);
    DrainAfterRun(memory, sig, frames, r, trees);
    GroupsAreRepresented(memory, sig, frames, r);
    ClearedGroups(memory, sig, frames, r.registry.groups, m, after.groups);
    if after.groups == [] {
      NothingLeftToProtect(memory, sig, frames, r, after);
    } else {
      assert after.groups[0] in after.groups;
    }
    NoDuplicatesInNothing();
  }

  lemma NoDuplicatesInNothing()
    ensures DuplicateEntries([]) == 0
  {}

  lemma GroupsAreRepresented(memory: FrameContents, sig: SignWords, frames: iset<Frame>, r: Run)
    requires Invariant(memory, sig, frames, r)
    ensures Represents(memory, sig, frames, r.registry.groups,
                       GroupsOf(memory, sig, Base(memory, r.history), r.history.promotions))
  {}

  lemma NothingLeftToProtect(memory: FrameContents, sig: SignWords, frames: iset<Frame>, r: Run, after: RegistryValue)
    requires Invariant(memory, sig, frames, r) && after.groups == []
    requires Clears(memory, sig, frames, r.registry,
                    GroupsOf(memory, sig, Base(memory, r.history), r.history.promotions), after)
    ensures after.cow == {}
  {
    hide Invariant, GroupsOf, Represents, Base;
    var m := GroupsOf(memory, sig, Base(memory, r.history), r.history.promotions);
    if f :| f in after.cow {
      ProtectedHasGroup(memory, sig, frames, r, f);
      assert memory(f) in m - {memory(0)};
      EmptyTableOnly(memory, sig, frames, after.groups, m - {memory(0)});
    }
  }

  lemma ClearedGroups(memory: FrameContents, sig: SignWords, frames: iset<Frame>, groups: TableValue,
                      m: ContentTable, after: TableValue)
    requires Represents(memory, sig, frames, groups, m)
    requires Represents(memory, sig, frames, after, m - {memory(0)})
    ensures forall g :: g in after <==> g in groups && memory(g.head) != memory(0)
  {
    hide Represents;
    forall g
      ensures g in after <==> g in groups && memory(g.head) != memory(0)
    {
      GroupOfContent(memory, sig, frames, groups, m, memory(g.head));
      GroupOfContent(memory, sig, frames, after, m - {memory(0)}, memory(g.head));
    }
  }

  /** A run after which a drain leaves a protected frame: two frames hold the same words, and
      frame 0 other ones. */
  lemma DrainCanLeaveProtectedPages(memory: FrameContents, sig: SignWords, f: Frame, g: Frame, first: Trees,
                                    second: Trees, trees: DrainTrees)
    requires f != g && memory(f) == memory(g) != memory(0)
    ensures var pool := Allocation(true, true, true);
            var r := Reached(memory, sig, [Observe(f, pool, first), Observe(g, pool, second)]).registry;
            r.cow == {f} && Drained(memory, r, trees).cow == {f}
  {
    hide Contiguous, Reached, Drained, Invariant, Observations, AllTracked;
    var pool, frames := Allocation(true, true, true), iset{0, f, g};
    var events := [Observe(f, pool, first), Observe(g, pool, second)];
    var r := Reached(memory, sig, events);
    TwoFramesAreContiguous(memory, sig, f, g);
    TwoObservations(events, frames, f, g);
    RunKeepsInvariant(memory, sig, frames, events);
    UndrainedStartsEmpty(memory, sig, events);
    ServedHistory(memory, sig, events);
    NothingFaulted(memory, sig, events);
    TwoFramesProtectFirst(memory, sig, frames, r, f, g);
    DrainKeepsOthers(memory, sig, frames, r, trees);
    assert OtherFrames(memory, {f}) == {f};
  }

  lemma DrainKeepsOthers(memory: FrameContents, sig: SignWords, frames: iset<Frame>, r: Run, trees: DrainTrees)
    requires Contiguous(memory, sig, frames) && 0 in frames && Invariant(memory, sig, frames, r)
    ensures Drained(memory, r.registry, trees).cow == OtherFrames(memory, r.registry.cow)
  {
    hide Contiguous, Invariant, Drained, OtherFrames, Represents;
    DrainAfterRun(memory, sig, frames, r, trees);
  }

  lemma {:induction false} NothingFaulted(memory: FrameContents, sig: SignWords, events: seq<Event>)
    requires forall i :: 0 <= i < |events| ==> events[i].Observe?
    ensures Reached(memory, sig, events).history.faulted == []
  {
    if |events| > 0 {
      NothingFaulted(memory, sig, events[..|events| - 1]);
    }
    hide AddedPage, PromotionsBy;
  }

  lemma TwoFramesAreContiguous(memory: FrameContents, sig: SignWords, f: Frame, g: Frame)
    requires f != g && memory(f) == memory(g) != memory(0)
    ensures Contiguous(memory, sig, iset{0, f, g})
  {}

  lemma TwoObservations(events: seq<Event>, frames: iset<Frame>, f: Frame, g: Frame)
    requires |events| == 2 && events[0].Observe? && events[1].Observe? && events[0].frame == f && events[1].frame == g
    requires f in frames && g in frames
    ensures Observations(events) == [f, g] && AllTracked(frames, events)
  {
    assert events[..1][..0] == [];
    assert Observations(events[..1]) == [f];
  }

  /** After observing two frames of one content, every promotion is that of the first. */
  lemma TwoFramesPromoteFirst(memory: FrameContents, sig: SignWords, f: Frame, g: Frame, promotions: seq<Promotion>)
    requires f != g && memory(f) == memory(g)
    requires AreSharedEntries(memory, Grouped(memory, sig, [f, g]), promotions)
    ensures forall a :: 0 <= a < |promotions| ==> promotions[a].frame == f
    ensures promotions != []
  {
    var m, c := Grouped(memory, sig, [f, g]), memory(f);
    DistinctOfTwo(memory, f, g);
    assert ContentsOf(memory, [f, g]) == {c} by {
      assert [f, g][0] in [f, g];
    }
    SharedExactly(memory, sig, [f, g], c);
    hide Grouped, Distinct, ContentsOf;
    assert HasPromotion(memory, promotions, c);
    forall a | 0 <= a < |promotions|
      ensures promotions[a].frame == f
    {
      assert IsSharedHead(memory, m, promotions[a].frame);
    }
  }

  lemma TwoFramesProtectFirst(memory: FrameContents, sig: SignWords, frames: iset<Frame>, r: Run, f: Frame, g: Frame)
    requires Invariant(memory, sig, frames, r) && f != g && memory(f) == memory(g)
    requires r.history.leftover == EMPTY && r.history.faulted == [] && r.history.seen == [f, g]
    requires AllServed(r.history.promotions)
    ensures r.registry.cow == {f}
  {
    hide Represents, Grouped, GroupsOf, Created, DuplicateEntries, LeftoverIsOther, AreSharedEntries;
    var promotions := r.history.promotions;
    TwoFramesPromoteFirst(memory, sig, f, g, promotions);
    assert GuardHolds({}, promotions[0]);
    OnlyFirstEntered(promotions, r.registry.cow, f);
  }

  lemma OnlyFirstEntered(promotions: seq<Promotion>, cow: set<Frame>, f: Frame)
    requires RegistrationsBalance({}, promotions, [], cow)
    requires promotions != [] && promotions[0].entered
    requires forall a :: 0 <= a < |promotions| ==> promotions[a].frame == f
    ensures cow == {f}
  {
    EnteredIsPromoted(promotions, f);
    hide Entered;
    assert f in multiset(cow) + multiset([]) by {
      assert f in multiset({}) + multiset(Entered(promotions));
    }
    forall x | x in cow
      ensures x == f
    {
      EntryIsEntered({}, promotions, [], cow, x);
      EnteredIsPromoted(promotions, x);
    }
  }

  lemma DistinctOfTwo(memory: FrameContents, f: Frame, g: Frame)
    requires f != g && memory(f) == memory(g)
    ensures Distinct(memory, [f, g], memory(f)) == [f, g]
  {
    assert [f, g][..1] == [f] && [f][..0] == [];
    assert Distinct(memory, [f], memory(f)) == [f];
  }

  // ----- the trees do not matter -----

  /** Events that differ at most in the shapes of the trees. */
  ghost predicate SameButTrees(e: Event, e': Event) {
    match e
    case Observe(f, pool, _) => e'.Observe? && e'.frame == f && e'.pool == pool
    case Fault(_, _, _) => e' == e
    case Drain(_) => e'.Drain?
  }

  ghost predicate AllSameButTrees(events: seq<Event>, events': seq<Event>) {
    |events| == |events'| && forall i :: 0 <= i < |events| ==> SameButTrees(events[i], events'[i])
  }

  lemma MarkingIgnoresTrees(memory: FrameContents, sig: SignWords, frames: iset<Frame>, r: RegistryValue,
                            m: ContentTable, tree: Shape, tree': Shape, head: Frame, pool: Allocation)
    requires Contiguous(memory, sig, frames) && head in frames && Represents(memory, sig, frames, r.groups, m)
    ensures var s := sig(memory(head));
            && MarkedShared(memory, r, tree, head, s, pool) == MarkedShared(memory, r, tree', head, s, pool)
            && PromotionBy(memory, r, tree, head, s, pool) == PromotionBy(memory, r, tree', head, s, pool)
  {
    hide Promoted, PromotedIn, Contiguous, Represents;
    var s := sig(memory(head));
    PromotedRepresents(memory, sig, frames, r.groups, m, tree, head, pool.group);
    PromotedRepresents(memory, sig, frames, r.groups, m, tree', head, pool.group);
    RepresentationIsUnique(memory, sig, frames, Promoted(memory, r.groups, tree, head, s, pool.group).0,
                           Promoted(memory, r.groups, tree', head, s, pool.group).0,
                           PromotedIn(memory, m, head, s, pool.group));
  }

  lemma ObservationIgnoresTrees(memory: FrameContents, sig: SignWords, frames: iset<Frame>, r: Run, e: Event, e': Event)
    requires Contiguous(memory, sig, frames) && Invariant(memory, sig, frames, r)
    requires e.Observe? && e.frame in frames && SameButTrees(e, e')
    ensures Step(memory, sig, r, e).(registry := EMPTY) == Step(memory, sig, r, e').(registry := EMPTY)
    ensures Step(memory, sig, r, e).registry.(pages := []) == Step(memory, sig, r, e').registry.(pages := [])
  {
    hide Step, Contiguous, Invariant, Grouped, GroupsOf, Promotes, MarkedShared, PromotionBy, Represents,
         DuplicateEntries;
    var m := Grouped(memory, sig, r.history.seen);
    if memory(e.frame) in m {
      LaterOutcome(memory, sig, frames, r, e);
      LaterOutcome(memory, sig, frames, r, e');
      GroupsAreRepresented(memory, sig, frames, r);
      MarkingIgnoresTrees(memory, sig, frames, r.registry, GroupsOf(memory, sig, Base(memory, r.history),
                          r.history.promotions), e.trees.groups, e'.trees.groups, m[memory(e.frame)].head, e.pool);
    } else {
      FirstOutcome(memory, sig, frames, r, e);
      FirstOutcome(memory, sig, frames, r, e');
    }
  }

  lemma StepIgnoresTrees(memory: FrameContents, sig: SignWords, frames: iset<Frame>, r: Run, e: Event, e': Event)
    requires Contiguous(memory, sig, frames) && Invariant(memory, sig, frames, r)
    requires IsTracked(frames, e) && SameButTrees(e, e')
    ensures Step(memory, sig, r, e) == Step(memory, sig, r, e')
  {
    hide Contiguous, Invariant, Represents, Grouped, GroupsOf, Drained, OtherFrames;
    if e.Drain? {
      var m := GroupsOf(memory, sig, Base(memory, r.history), r.history.promotions);
      var after, after' := Drained(memory, r.registry, e.drainTrees), Drained(memory, r.registry, e'.drainTrees);
      DrainAfterRun(memory, sig, frames, r, e.drainTrees);
      DrainAfterRun(memory, sig, frames, r, e'.drainTrees);
      RepresentationIsUnique(memory, sig, frames, after.groups, after'.groups, m - {memory(0)});
    }
    hide Step;
    if e.Observe? {
      ObservationIgnoresTrees(memory, sig, frames, r, e, e');
      StepRepresents(memory, sig, frames, r, e);
      StepRepresents(memory, sig, frames, r, e');
      var after, after' := Step(memory, sig, r, e), Step(memory, sig, r, e');
      RepresentationIsUnique(memory, sig, frames, after.registry.pages, after'.registry.pages,
                             Grouped(memory, sig, after.history.seen));
    }
  }

  lemma StepRepresents(memory: FrameContents, sig: SignWords, frames: iset<Frame>, r: Run, e: Event)
    requires Contiguous(memory, sig, frames) && Invariant(memory, sig, frames, r) && IsTracked(frames, e)
    ensures var after := Step(memory, sig, r, e);
            Represents(memory, sig, frames, after.registry.pages, Grouped(memory, sig, after.history.seen))
  {
    StepKeepsInvariant(memory, sig, frames, r, e);
    hide Step, Represents, Grouped, Contiguous, GroupBooks, AreSharedEntries, DuplicateEntries;
  }

  /** What a run reaches, tables and history alike, does not depend on the shapes of the trees. */
  lemma {:induction false} RunIgnoresTrees(memory: FrameContents, sig: SignWords, frames: iset<Frame>,
                                           events: seq<Event>, events': seq<Event>)
    requires Contiguous(memory, sig, frames) && AllTracked(frames, events) && AllSameButTrees(events, events')
    ensures Reached(memory, sig, events) == Reached(memory, sig, events')
    decreases |events|
  {
    hide Contiguous, Invariant, Step, IsTracked, SameButTrees;
    if |events| > 0 {
      var n := |events| - 1;
      RunIgnoresTrees(memory, sig, frames, events[..n], events'[..n]);
      RunKeepsInvariant(memory, sig, frames, events[..n]);
      StepIgnoresTrees(memory, sig, frames, Reached(memory, sig, events[..n]), events[n], events'[n]);
    }
  }
}
