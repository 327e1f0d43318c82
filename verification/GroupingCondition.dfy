/** The exact condition under which the page table groups frames by content, and under which the
    shapes of the trees do not matter. */
module GroupingCondition {
  import opened Options
  import opened PageOrder
  import opened Registry
  import opened OrderedTables
  import opened Grouping
  import opened RegistryRuns
  import opened RegistryLaws

  // ----- trees that move to their root what was looked up -----

  /** The entry of the page table that the last lookup by an addition found or inserted, and that
      is therefore at the root of its tree; None while the table is empty. */
  function Root(memory: FrameContents, sig: SignWords, events: seq<Event>): Option<nat> {
    if |events| == 0 then None
    else
      var before := events[..|events| - 1];
      match events[|events| - 1]
      case Observe(f, pool, trees) =>
        (match Search(memory, Reached(memory, sig, before).registry.pages, trees.pages, KeyOf(memory, sig, f))
         case Found(k) => Some(k)
         case Absent(k) => if pool.page then Some(k) else Root(memory, sig, before))
      case Fault(_, _, _) => Root(memory, sig, before)
      case Drain(_) => None
  }

  predicate HasRoot(t: Shape, root: Option<nat>) {
    match root
    case None => t == Leaf
    case Some(k) => t.Node? && Size(t.left) == k
  }

  /** Every addition looks into a page table whose tree has that entry at its root.  The other
      trees may have any shape. */
  ghost predicate IsSplayed(memory: FrameContents, sig: SignWords, events: seq<Event>) {
    forall i :: 0 <= i < |events| && events[i].Observe? ==>
      LooksIntoSplayed(memory, sig, events[..i], events[i].trees.pages)
  }

  ghost predicate LooksIntoSplayed(memory: FrameContents, sig: SignWords, before: seq<Event>, t: Shape) {
    Size(t) == |Reached(memory, sig, before).registry.pages| && HasRoot(t, Root(memory, sig, before))
  }

  // ----- a run in which a tree hides an entry -----

  /** The frame between the two is observed second, so that it is at the root when the third
      frame is looked up; with two entries that decides the shape. */
  function HidingRun(f: Frame, g: Frame, h: Frame): seq<Event> {
    BeforeHiding(f, g) + [LastOfThree(h, Node(Node(Leaf, Leaf), Leaf))]
  }

  function BeforeHiding(f: Frame, g: Frame): seq<Event> {
    var pool := Allocation(true, true, true);
    [Observe(f, pool, Trees(Leaf, Leaf)), Observe(g, pool, Trees(Node(Leaf, Leaf), Leaf))]
  }

  function LastOfThree(h: Frame, tree: Shape): Event {
    Observe(h, Allocation(true, true, true), Trees(tree, Leaf))
  }

  /** The same run, except that the last tree has its root at the first frame. */
  function ShowingRun(f: Frame, g: Frame, h: Frame): seq<Event> {
    BeforeHiding(f, g) + [LastOfThree(h, Node(Leaf, Node(Leaf, Leaf)))]
  }

  lemma InsertingStep(memory: FrameContents, sig: SignWords, r: Run, e: Event, k: nat)
    requires e.Observe? && e.pool.page
    requires Search(memory, r.registry.pages, e.trees.pages, KeyOf(memory, sig, e.frame)) == Absent(k)
    ensures Step(memory, sig, r, e).registry.pages
         == Inserted(r.registry.pages, k, NewEntry(e.frame, sig(memory(e.frame))))
  {
    hide Search;
  }

  lemma OneEntry(memory: FrameContents, sig: SignWords, f: Frame, g: Frame)
    ensures Reached(memory, sig, BeforeHiding(f, g)[..1]).registry.pages == [NewEntry(f, sig(memory(f)))]
    ensures Root(memory, sig, BeforeHiding(f, g)[..1]) == Some(0)
  {
    var events := BeforeHiding(f, g);
    assert events[..1][..0] == [];
    assert Search(memory, [], Leaf, KeyOf(memory, sig, f)) == Absent(0);
    hide Step, Less, Compare, Search;
    InsertingStep(memory, sig, Reached(memory, sig, []), events[0], 0);
  }

  lemma SecondSearch(memory: FrameContents, sig: SignWords, f: Frame, g: Frame)
    requires f < g && sig(memory(f)) == sig(memory(g)) && memory(g) != memory(f)
    ensures Search(memory, [NewEntry(f, sig(memory(f)))], Node(Leaf, Leaf), KeyOf(memory, sig, g)) == Absent(1)
  {
    CompareBySignatureThenFrame(memory, KeyOf(memory, sig, g), KeyOf(memory, sig, f));
    hide Compare;
    assert KeysOf([NewEntry(f, sig(memory(f)))]) == [KeyOf(memory, sig, f)];
  }

  lemma TwoEntries(memory: FrameContents, sig: SignWords, f: Frame, g: Frame)
    requires f < g && sig(memory(f)) == sig(memory(g)) && memory(g) != memory(f)
    ensures Reached(memory, sig, BeforeHiding(f, g)).registry.pages
         == [NewEntry(f, sig(memory(f))), NewEntry(g, sig(memory(g)))]
    ensures Root(memory, sig, BeforeHiding(f, g)) == Some(1)
  {
    hide Step, Less, Compare, Search;
    var events := BeforeHiding(f, g);
    OneEntry(memory, sig, f, g);
    SecondSearch(memory, sig, f, g);
    InsertingStep(memory, sig, Reached(memory, sig, events[..1]), events[1], 1);
  }

  lemma HiddenEntry(memory: FrameContents, sig: SignWords, f: Frame, g: Frame, h: Frame)
    requires f < g < h && sig(memory(f)) == sig(memory(g)) && memory(f) == memory(h) && memory(g) != memory(f)
    ensures Reached(memory, sig, HidingRun(f, g, h)).registry.pages
         == [NewEntry(f, sig(memory(f))), NewEntry(g, sig(memory(g))), NewEntry(h, sig(memory(h)))]
  {
    var events := HidingRun(f, g, h);
    assert events[..2] == BeforeHiding(f, g);
    hide Step, Less, Compare, BeforeHiding, Search;
    var two := Reached(memory, sig, events[..2]);
    TwoEntries(memory, sig, f, g);
    HidingSearch(memory, sig, f, g, h);
    InsertingStep(memory, sig, two, events[2], 2);
  }

  lemma HidingSearch(memory: FrameContents, sig: SignWords, f: Frame, g: Frame, h: Frame)
    requires f < g < h && sig(memory(f)) == sig(memory(g)) && memory(f) == memory(h) && memory(g) != memory(f)
    ensures var pages := [NewEntry(f, sig(memory(f))), NewEntry(g, sig(memory(g)))];
            Search(memory, pages, Node(Node(Leaf, Leaf), Leaf), KeyOf(memory, sig, h)) == Absent(2)
  {
    hide Less, Compare, Descend, IsSorted, HoldsContent;
    var pages, tree := [NewEntry(f, sig(memory(f))), NewEntry(g, sig(memory(g)))], Node(Node(Leaf, Leaf), Leaf);
    HiddenPage(memory, sig, f, g, h);
    assert KeysOf(pages) == [KeyOf(memory, sig, f), KeyOf(memory, sig, g)];
    assert Size(tree.left) == 1;
    assert Fitted(tree, 2) == tree;
  }

  lemma ShownEntry(memory: FrameContents, sig: SignWords, f: Frame, g: Frame, h: Frame)
    requires f < g < h && sig(memory(f)) == sig(memory(g)) && memory(f) == memory(h) && memory(g) != memory(f)
    ensures |Reached(memory, sig, ShowingRun(f, g, h)).registry.pages| == 2
  {
    var events := ShowingRun(f, g, h);
    assert events[..2] == BeforeHiding(f, g);
    var two := Reached(memory, sig, events[..2]);
    hide Less, Compare, BeforeHiding, MarkedShared, PromotionsBy, Flagged, Promotes;
    TwoEntries(memory, sig, f, g);
    CompareBySignatureThenFrame(memory, KeyOf(memory, sig, h), KeyOf(memory, sig, f));
    assert KeysOf(two.registry.pages)[0] == KeyOf(memory, sig, f);
    assert Search(memory, two.registry.pages, events[2].trees.pages, KeyOf(memory, sig, h)) == Found(0);
    var e := two.registry.pages[0];
    MarkingKeepsPages(memory, two.registry.(pages := two.registry.pages[0 := Flagged(e, h)]), Leaf, e.head,
                      e.signature, events[2].pool);
  }

  /** Over all runs on a set of frames, searched through trees of any shapes, the page table is
      the grouping of the frames accepted since the last drain if and only if contents are
      contiguous.  Nothing changes when only the runs are considered in which every tree of the
      page table has at its root what was looked up last: one of them enters a content twice. */
  lemma GroupingExactlyWhenContiguous(memory: FrameContents, sig: SignWords, frames: iset<Frame>)
    ensures (forall events :: AllTracked(frames, events) ==> GroupsByContent(memory, sig, events))
       <==> Contiguous(memory, sig, frames)
    ensures (forall events :: AllTracked(frames, events) && IsSplayed(memory, sig, events) ==>
               GroupsByContent(memory, sig, events))
       <==> Contiguous(memory, sig, frames)
  {
    hide Reached, GroupsByContent, HidingRun, AllTracked, IsSplayed;
    if Contiguous(memory, sig, frames) {
      forall events | AllTracked(frames, events)
        ensures GroupsByContent(memory, sig, events)
      {
        ContiguousRunGroups(memory, sig, frames, events);
      }
    } else {
      var f, g, h :| f in frames && g in frames && h in frames && f < g < h
        && sig(memory(f)) == sig(memory(g)) && memory(f) == memory(h) && memory(g) != memory(f);
      HidingRunIsTracked(frames, f, g, h);
      HidingRunIsSplayed(memory, sig, f, g, h);
      HidingRunFails(memory, sig, f, g, h);
    }
  }

  lemma HidingRunIsSplayed(memory: FrameContents, sig: SignWords, f: Frame, g: Frame, h: Frame)
    requires f < g && sig(memory(f)) == sig(memory(g)) && memory(g) != memory(f)
    ensures IsSplayed(memory, sig, HidingRun(f, g, h))
  {
    var events := HidingRun(f, g, h);
    assert events[..0] == [] && events[..1] == BeforeHiding(f, g)[..1] && events[..2] == BeforeHiding(f, g);
    assert Size(Node(Leaf, Leaf)) == 1 && Size(Node(Node(Leaf, Leaf), Leaf)) == 2;
    OneEntry(memory, sig, f, g);
    TwoEntries(memory, sig, f, g);
    assert LooksIntoSplayed(memory, sig, events[..0], events[0].trees.pages);
    assert LooksIntoSplayed(memory, sig, events[..1], events[1].trees.pages);
    assert LooksIntoSplayed(memory, sig, events[..2], events[2].trees.pages);
    hide LooksIntoSplayed, Reached, Root, BeforeHiding;
  }

  lemma ContiguousRunGroups(memory: FrameContents, sig: SignWords, frames: iset<Frame>, events: seq<Event>)
    requires Contiguous(memory, sig, frames) && AllTracked(frames, events)
    ensures GroupsByContent(memory, sig, events)
  {
    hide Contiguous, AllTracked, Reached, SameEntries, AllTidy, IsOrdered, Grouped;
    RunIsGroupedAndBalanced(memory, sig, frames, events);
  }

  lemma HidingRunIsTracked(frames: iset<Frame>, f: Frame, g: Frame, h: Frame)
    requires f in frames && g in frames && h in frames
    ensures AllTracked(frames, HidingRun(f, g, h))
    ensures AllSameButTrees(HidingRun(f, g, h), ShowingRun(f, g, h))
  {}

  ghost predicate GroupsByContent(memory: FrameContents, sig: SignWords, events: seq<Event>) {
    var r := Reached(memory, sig, events);
    SameEntries(memory, r.registry.pages, Grouped(memory, sig, r.history.seen))
  }

  lemma HidingRunFails(memory: FrameContents, sig: SignWords, f: Frame, g: Frame, h: Frame)
    requires f < g < h && sig(memory(f)) == sig(memory(g)) && memory(f) == memory(h) && memory(g) != memory(f)
    ensures !GroupsByContent(memory, sig, HidingRun(f, g, h))
  {
    HiddenEntry(memory, sig, f, g, h);
    hide Reached, Grouped, HidingRun;
    var pages := Reached(memory, sig, HidingRun(f, g, h)).registry.pages;
    assert memory(pages[0].head) == memory(pages[2].head);
  }

  /** What a run reaches depends on the shapes of the trees only where contents are not contiguous. */
  lemma TreesDoNotMatterExactlyWhenContiguous(memory: FrameContents, sig: SignWords, frames: iset<Frame>)
    ensures (forall events, events' | AllTracked(frames, events) && AllSameButTrees(events, events') ::
               Reached(memory, sig, events) == Reached(memory, sig, events'))
       <==> Contiguous(memory, sig, frames)
  {
    hide Reached, HidingRun, ShowingRun, AllTracked, AllSameButTrees;
    if Contiguous(memory, sig, frames) {
      forall events, events' | AllTracked(frames, events) && AllSameButTrees(events, events')
        ensures Reached(memory, sig, events) == Reached(memory, sig, events')
      {
        RunIgnoresTrees(memory, sig, frames, events, events');
      }
    } else {
      var f, g, h :| f in frames && g in frames && h in frames && f < g < h
        && sig(memory(f)) == sig(memory(g)) && memory(f) == memory(h) && memory(g) != memory(f);
      HidingRunIsTracked(frames, f, g, h);
      HiddenEntry(memory, sig, f, g, h);
      ShownEntry(memory, sig, f, g, h);
      assert Reached(memory, sig, HidingRun(f, g, h)) != Reached(memory, sig, ShowingRun(f, g, h));
    }
  }
}
