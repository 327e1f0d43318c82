/** What `DrainDedupeState` leaves behind, given that demotion looks groups up with frame 0. */
module Draining {
  import opened PageOrder
  import opened Registry
  import opened OrderedTables

  /** Neither a group nor a registration has the content of frame 0. */
  ghost predicate ZeroFree(memory: FrameContents, m: ContentTable, cow: set<Frame>) {
    memory(0) !in m && forall f :: f in cow ==> memory(f) != memory(0)
  }

  /** Only `head` is grouped or registered with the content of frame 0, and it is registered
      only if grouped. */
  ghost predicate ZeroBound(memory: FrameContents, m: ContentTable, cow: set<Frame>, head: Frame) {
    && memory(head) == memory(0)
    && (memory(0) in m ==> m[memory(0)].frames == [head])
    && (forall f :: f in cow && memory(f) == memory(0) ==> f == head && memory(0) in m)
  }

  ghost predicate IsZeroEntry(memory: FrameContents, m: ContentTable, cow: set<Frame>, e: EntryValue) {
    e.shared && ZeroBound(memory, m, cow, e.head)
  }

  /** Whatever has the content of frame 0 belongs to a shared entry, if to any. */
  ghost predicate ZeroAccounted(memory: FrameContents, r: RegistryValue, m: ContentTable) {
    ZeroFree(memory, m, r.cow) || exists k :: 0 <= k < |r.pages| && IsZeroEntry(memory, m, r.cow, r.pages[k])
  }

  ghost predicate DifferentContents(memory: FrameContents, pages: TableValue) {
    forall i, j :: 0 <= i < j < |pages| ==> memory(pages[i].head) != memory(pages[j].head)
  }

  ghost predicate Drainable(memory: FrameContents, sig: SignWords, frames: iset<Frame>, r: RegistryValue,
                            m: ContentTable)
  {
    && IsTidyTable(memory, sig, frames, r.pages) && DifferentContents(memory, r.pages)
    && Represents(memory, sig, frames, r.groups, m) && ZeroAccounted(memory, r, m)
  }

  /** What a drain leaves of the copy-on-write registry. */
  ghost function OtherFrames(memory: FrameContents, cow: set<Frame>): set<Frame> {
    set f | f in cow && memory(f) != memory(0)
  }

  /** The first registry with its groups and registrations cleared of the content of frame 0. */
  ghost predicate Clears(memory: FrameContents, sig: SignWords, frames: iset<Frame>, r: RegistryValue,
                         m: ContentTable, after: RegistryValue)
  {
    Represents(memory, sig, frames, after.groups, m - {memory(0)}) && after.cow == OtherFrames(memory, r.cow)
  }

  // ----- unmarking -----

  /** Unmarking does nothing unless the frame has the content of frame 0 and a group; then the
      group goes, for the frame was its only one. */
  lemma UnmarkingOne(memory: FrameContents, sig: SignWords, frames: iset<Frame>, r: RegistryValue,
                     m: ContentTable, trees: DemotionTrees, f: Frame, head: Frame)
    requires Contiguous(memory, sig, frames) && 0 in frames && Represents(memory, sig, frames, r.groups, m)
    requires memory(f) == memory(0) && memory(0) in m ==> m[memory(0)].frames == [head]
    ensures var after := UnmarkedShared(memory, r, trees, f, sig(memory(f))).0;
            if memory(f) == memory(0) && memory(0) in m && f == head then
              && after.pages == r.pages && after.cow == r.cow - {f}
              && Represents(memory, sig, frames, after.groups, m - {memory(0)})
            else after == r
  {
    hide Demoted, Contiguous, Represents;
    DemotedRepresents(memory, sig, frames, r.groups, m, trees, f);
    if memory(f) == memory(0) && memory(0) in m && f == head {
      assert Removed(m[memory(0)], f).frames == [];
    }
  }

  /** Every listed frame has this content. */
  ghost predicate HaveContent(memory: FrameContents, listed: seq<Frame>, content: Content) {
    forall f :: f in listed ==> memory(f) == content
  }

  lemma {:induction false} UnmarkingNothing(memory: FrameContents, sig: SignWords, frames: iset<Frame>,
                                            r: RegistryValue, m: ContentTable, trees: DrainTrees,
                                            listed: seq<Frame>, c: Content)
    requires Contiguous(memory, sig, frames) && 0 in frames && Represents(memory, sig, frames, r.groups, m)
    requires HaveContent(memory, listed, c) && (c == memory(0) ==> c !in m)
    ensures AllUnmarked(memory, r, trees, listed, sig(c)) == r
  {
    hide UnmarkedShared, Contiguous, Represents;
    if listed != [] {
      assert listed[0] in listed && forall f :: f in listed[1..] ==> f in listed;
      UnmarkingOne(memory, sig, frames, r, m, trees.groups(|r.pages|, |listed|), listed[0], 0);
      UnmarkingNothing(memory, sig, frames, r, m, trees, listed[1..], c);
    }
  }

  lemma {:induction false} UnmarkingZeroEntry(memory: FrameContents, sig: SignWords, frames: iset<Frame>,
                                              r: RegistryValue, m: ContentTable, trees: DrainTrees,
                                              listed: seq<Frame>, head: Frame)
    requires Contiguous(memory, sig, frames) && 0 in frames && Represents(memory, sig, frames, r.groups, m)
    requires HaveContent(memory, listed, memory(0)) && ZeroBound(memory, m, r.cow, head)
    requires head in listed
    ensures Clears(memory, sig, frames, r, m, AllUnmarked(memory, r, trees, listed, sig(memory(0))))
  {
    hide UnmarkedShared, Contiguous, Represents;
    assert forall f :: f in listed[1..] ==> f in listed;
    if memory(0) !in m {
      UnmarkingNothing(memory, sig, frames, r, m, trees, listed, memory(0));
      assert m - {memory(0)} == m;
    } else {
      UnmarkingOne(memory, sig, frames, r, m, trees.groups(|r.pages|, |listed|), listed[0], head);
      if listed[0] == head {
        var once := UnmarkedShared(memory, r, trees.groups(|r.pages|, |listed|), head, sig(memory(0))).0;
        UnmarkingNothing(memory, sig, frames, once, m - {memory(0)}, trees, listed[1..], memory(0));
      } else {
        UnmarkingZeroEntry(memory, sig, frames, r, m, trees, listed[1..], head);
      }
    }
  }

  // ----- what unmarking an entry takes out, whatever its group lists -----

  /** The frames of the group of this content; none without a group. */
  function GroupFrames(m: ContentTable, c: Content): set<Frame> {
    if c in m then set f | f in m[c].frames else {}
  }

  /** Unmarking the frames of one content takes every listed frame out of the group of that content,
      and out of the copy-on-write registry, exactly when frame 0 has that content. */
  ghost predicate TakesOut(memory: FrameContents, sig: SignWords, frames: iset<Frame>, r: RegistryValue,
                           m: ContentTable, listed: seq<Frame>, c: Content, after: RegistryValue, m': ContentTable)
  {
    && Represents(memory, sig, frames, after.groups, m') && m' - {c} == m - {c}
    && (c == memory(0) ==> GroupFrames(m', c) == GroupFrames(m, c) - (set f | f in listed))
    && (c == memory(0) ==> after.cow == r.cow - ((set f | f in listed) * GroupFrames(m, c)))
    && (c != memory(0) ==> after == r)
  }

  lemma UnmarkingTakesOne(memory: FrameContents, sig: SignWords, frames: iset<Frame>, r: RegistryValue,
                          m: ContentTable, trees: DemotionTrees, f: Frame)
    requires Contiguous(memory, sig, frames) && 0 in frames && Represents(memory, sig, frames, r.groups, m)
    ensures TakesOut(memory, sig, frames, r, m, [f], memory(f),
                     UnmarkedShared(memory, r, trees, f, sig(memory(f))).0, DemotedIn(memory, m, f))
  {
    hide Demoted, Contiguous, Represents, Without;
    DemotedRepresents(memory, sig, frames, r.groups, m, trees, f);
    GroupOfContent(memory, sig, frames, r.groups, m, memory(f));
    if Demotes(memory, m, f) {
      WithoutMembers(m[memory(f)].frames, f);
      RemovedIsSound(m[memory(f)], f);
    }
  }

  lemma {:induction false} UnmarkingTakesOut(memory: FrameContents, sig: SignWords, frames: iset<Frame>,
                                             r: RegistryValue, m: ContentTable, trees: DrainTrees,
                                             listed: seq<Frame>, c: Content) returns (m': ContentTable)
    requires Contiguous(memory, sig, frames) && 0 in frames && Represents(memory, sig, frames, r.groups, m)
    requires HaveContent(memory, listed, c)
    ensures TakesOut(memory, sig, frames, r, m, listed, c, AllUnmarked(memory, r, trees, listed, sig(c)), m')
    decreases |listed|
  {
    hide UnmarkedShared, Contiguous, Represents, DemotedIn, GroupFrames;
    if listed == [] {
      return m;
    }
    var f := listed[0];
    assert f in listed && forall x :: x in listed[1..] ==> x in listed;
    var middle := DemotedIn(memory, m, f);
    var once := UnmarkedShared(memory, r, trees.groups(|r.pages|, |listed|), f, sig(c)).0;
    UnmarkingTakesOne(memory, sig, frames, r, m, trees.groups(|r.pages|, |listed|), f);
    m' := UnmarkingTakesOut(memory, sig, frames, once, middle, trees, listed[1..], c);
    assert (set x | x in listed) == {f} + (set x | x in listed[1..]);
    assert (set x | x in [f]) == {f};
  }

  // ----- draining all entries -----

  /** Each round deletes the first entry. */
  lemma FirstGoes(memory: FrameContents, sig: SignWords, frames: iset<Frame>, r: RegistryValue, trees: DrainTrees)
    requires Contiguous(memory, sig, frames) && IsTidyTable(memory, sig, frames, r.pages) && r.pages != []
    ensures AfterFirst(memory, r, trees).pages == r.pages[1..]
  {
    hide Contiguous, IsTidyTable, AllUnmarked, Represents, Erased;
    TidyTableRepresents(memory, sig, frames, r.pages);
    OwnKeyIsFound(memory, sig, frames, r.pages, ByContent(memory, r.pages), trees.pages(|r.pages|), 0);
    assert Deleted(r.pages, 0) == r.pages[1..];
  }

  lemma LaterEntries(memory: FrameContents, sig: SignWords, frames: iset<Frame>, pages: TableValue)
    requires IsTidyTable(memory, sig, frames, pages) && DifferentContents(memory, pages) && pages != []
    ensures IsTidyTable(memory, sig, frames, pages[1..]) && DifferentContents(memory, pages[1..])
    ensures HaveContent(memory, pages[0].frames, memory(pages[0].head))
    ensures pages[0].signature == sig(memory(pages[0].head)) && pages[0].head in pages[0].frames
  {
    EntryHasContent(memory, sig, frames, pages[0]);
    hide IsTidy, Less, EntryKey, HaveContent;
  }

  /** The first entry is the shared one with the content of frame 0. */
  lemma DrainStepClears(memory: FrameContents, sig: SignWords, frames: iset<Frame>, r: RegistryValue,
                        m: ContentTable, trees: DrainTrees)
    requires Contiguous(memory, sig, frames) && 0 in frames && Drainable(memory, sig, frames, r, m)
    requires r.pages != [] && r.pages[0].shared && memory(r.pages[0].head) == memory(0)
    ensures Clears(memory, sig, frames, r, m, AfterFirst(memory, r, trees))
    ensures AfterFirst(memory, r, trees).pages == r.pages[1..]
  {
    hide AllUnmarked, Contiguous, Represents, Erased, IsTidyTable, HaveContent, ZeroBound;
    FirstGoes(memory, sig, frames, r, trees);
    LaterEntries(memory, sig, frames, r.pages);
    var e := r.pages[0];
    if ZeroFree(memory, m, r.cow) {
      UnmarkingNothing(memory, sig, frames, r, m, trees, e.frames, memory(0));
      assert m - {memory(0)} == m;
    } else {
      var k :| 0 <= k < |r.pages| && IsZeroEntry(memory, m, r.cow, r.pages[k]);
      ZeroEntryHasZeroContent(memory, m, r.cow, r.pages[k]);
      assert k == 0;
      UnmarkingZeroEntry(memory, sig, frames, r, m, trees, e.frames, e.head);
    }
  }

  /** The first entry has nothing to unmark. */
  lemma DrainStepKeeps(memory: FrameContents, sig: SignWords, frames: iset<Frame>, r: RegistryValue,
                       m: ContentTable, trees: DrainTrees)
    requires Contiguous(memory, sig, frames) && 0 in frames && Drainable(memory, sig, frames, r, m)
    requires r.pages != [] && !(r.pages[0].shared && memory(r.pages[0].head) == memory(0))
    ensures AfterFirst(memory, r, trees) == r.(pages := r.pages[1..])
    ensures Drainable(memory, sig, frames, AfterFirst(memory, r, trees), m)
  {
    hide AllUnmarked, Contiguous, Represents, Erased, IsTidyTable, HaveContent, ZeroBound, DifferentContents, ZeroFree;
    var e, rest := r.pages[0], r.(pages := r.pages[1..]);
    FirstGoes(memory, sig, frames, r, trees);
    LaterEntries(memory, sig, frames, r.pages);
    if e.shared {
      UnmarkingNothing(memory, sig, frames, r, m, trees, e.frames, memory(e.head));
    }
    if !ZeroFree(memory, m, r.cow) {
      var k :| 0 <= k < |r.pages| && IsZeroEntry(memory, m, r.cow, r.pages[k]);
      ZeroEntryHasZeroContent(memory, m, r.cow, r.pages[k]);
      assert k != 0;
      assert rest.pages[k - 1] == r.pages[k];
    }
  }

  lemma EntryHasContent(memory: FrameContents, sig: SignWords, frames: iset<Frame>, e: EntryValue)
    requires IsTidy(memory, sig, frames, e)
    ensures HaveContent(memory, e.frames, memory(e.head)) && e.signature == sig(memory(e.head)) && e.head in e.frames
  {}

  lemma ZeroEntryHasZeroContent(memory: FrameContents, m: ContentTable, cow: set<Frame>, e: EntryValue)
    requires IsZeroEntry(memory, m, cow, e)
    ensures e.shared && memory(e.head) == memory(0)
  {}

  lemma ClearedIsDrainable(memory: FrameContents, sig: SignWords, frames: iset<Frame>, r: RegistryValue,
                           m: ContentTable, rest: RegistryValue)
    requires Drainable(memory, sig, frames, r, m) && r.pages != []
    requires rest.pages == r.pages[1..] && Clears(memory, sig, frames, r, m, rest)
    ensures Drainable(memory, sig, frames, rest, m - {memory(0)})
  {
    LaterEntries(memory, sig, frames, r.pages);
    hide Represents, IsTidyTable, DifferentContents;
  }

  lemma ClearingTwice(memory: FrameContents, sig: SignWords, frames: iset<Frame>, r: RegistryValue, m: ContentTable,
                      rest: RegistryValue, last: RegistryValue)
    requires Clears(memory, sig, frames, r, m, rest)
    requires Clears(memory, sig, frames, rest, m - {memory(0)}, last)
    ensures Clears(memory, sig, frames, r, m, last)
  {
    hide Represents;
    assert m - {memory(0)} - {memory(0)} == m - {memory(0)};
  }

  /** Draining clears what has the content of frame 0 and leaves everything else. */
  lemma {:induction false} DrainClearsZero(memory: FrameContents, sig: SignWords, frames: iset<Frame>,
                                           r: RegistryValue, m: ContentTable, trees: DrainTrees)
    requires Contiguous(memory, sig, frames) && 0 in frames && Drainable(memory, sig, frames, r, m)
    ensures Clears(memory, sig, frames, r, m, Drained(memory, r, trees))
    decreases |r.pages|
  {
    if r.pages == [] {
      NothingLeftIsZeroFree(memory, sig, frames, r, m);
      return;
    }
    hide Contiguous, Drainable, Clears, AfterFirst;
    var rest := AfterFirst(memory, r, trees);
    if r.pages[0].shared && memory(r.pages[0].head) == memory(0) {
      DrainStepClears(memory, sig, frames, r, m, trees);
      ClearedIsDrainable(memory, sig, frames, r, m, rest);
      DrainClearsZero(memory, sig, frames, rest, m - {memory(0)}, trees);
      ClearingTwice(memory, sig, frames, r, m, rest, Drained(memory, rest, trees));
    } else {
      DrainStepKeeps(memory, sig, frames, r, m, trees);
      DrainClearsZero(memory, sig, frames, rest, m, trees);
      SameClearing(memory, sig, frames, r, m, rest, Drained(memory, rest, trees));
    }
  }

  lemma SameClearing(memory: FrameContents, sig: SignWords, frames: iset<Frame>, r: RegistryValue, m: ContentTable,
                     rest: RegistryValue, last: RegistryValue)
    requires rest.cow == r.cow && Clears(memory, sig, frames, rest, m, last)
    ensures Clears(memory, sig, frames, r, m, last)
  {}

  lemma NothingLeftIsZeroFree(memory: FrameContents, sig: SignWords, frames: iset<Frame>, r: RegistryValue,
                              m: ContentTable)
    requires Drainable(memory, sig, frames, r, m) && r.pages == []
    ensures Clears(memory, sig, frames, r, m, r)
  {
    assert m - {memory(0)} == m;
  }
}
