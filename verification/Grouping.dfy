/** The page table against its reference: the observed frames grouped by content. */
module Grouping {
  import opened Pages
  import opened PageOrder
  import opened Registry
  import opened OrderedTables

  // ----- the reference: grouping a history of observations by content -----

  /** The distinct frames with this content, in the order they were first seen. */
  function Distinct(memory: FrameContents, seen: seq<Frame>, content: seq<bv64>): seq<Frame> {
    if seen == [] then []
    else
      var earlier, f := Distinct(memory, seen[..|seen| - 1], content), seen[|seen| - 1];
      if memory(f) == content && f !in earlier then earlier + [f] else earlier
  }

  /** Those of them that fit the slots of an entry. */
  function Listed(memory: FrameContents, seen: seq<Frame>, content: seq<bv64>): seq<Frame> {
    var d := Distinct(memory, seen, content);
    if |d| <= SLOTS then d else d[..SLOTS]
  }

  /** How many observations were of frames with this content outside the list. */
  function Unlisted(memory: FrameContents, seen: seq<Frame>, content: seq<bv64>, listed: seq<Frame>): nat {
    if seen == [] then 0
    else
      var f := seen[|seen| - 1];
      Unlisted(memory, seen[..|seen| - 1], content, listed) + (if memory(f) == content && f !in listed then 1 else 0)
  }

  function Expected(memory: FrameContents, sig: SignWords, seen: seq<Frame>, content: seq<bv64>): EntryValue {
    var listed := Listed(memory, seen, content);
    EntryValue(sig(content), |listed| + Unlisted(memory, seen, content, listed), listed,
               |Distinct(memory, seen, content)| >= 2, if listed == [] then 0 else listed[0])
  }

  ghost function ContentsOf(memory: FrameContents, seen: seq<Frame>): set<Content> {
    set f | f in seen :: memory(f)
  }

  /** One entry per content seen, and each entry is the expected one. */
  ghost function Grouped(memory: FrameContents, sig: SignWords, seen: seq<Frame>): (m: ContentTable)
    ensures m.Keys == ContentsOf(memory, seen)
    ensures forall c :: c in m ==> m[c] == Expected(memory, sig, seen, c)
  {
    map c | c in ContentsOf(memory, seen) :: Expected(memory, sig, seen, c)
  }

  // ----- facts about the reference -----

  lemma {:induction false} DistinctFacts(memory: FrameContents, seen: seq<Frame>, content: seq<bv64>)
    ensures NoDuplicates(Distinct(memory, seen, content))
    ensures forall f :: f in Distinct(memory, seen, content) <==> f in seen && memory(f) == content
  {
    if seen != [] {
      var n := |seen| - 1;
      DistinctFacts(memory, seen[..n], content);
      assert forall f :: f in seen <==> f in seen[..n] || f == seen[n];
    }
  }

  lemma {:induction false} UnlistedIsZero(memory: FrameContents, seen: seq<Frame>, content: seq<bv64>,
                                          listed: seq<Frame>)
    requires forall i :: 0 <= i < |seen| && memory(seen[i]) == content ==> seen[i] in listed
    ensures Unlisted(memory, seen, content, listed) == 0
  {
    if seen != [] {
      UnlistedIsZero(memory, seen[..|seen| - 1], content, listed);
    }
  }

  /** Another content's group is not touched by an observation. */
  lemma OtherContentUnchanged(memory: FrameContents, sig: SignWords, seen: seq<Frame>, f: Frame, content: seq<bv64>)
    requires memory(f) != content
    ensures Expected(memory, sig, seen + [f], content) == Expected(memory, sig, seen, content)
  {
    assert (seen + [f])[..|seen|] == seen;
  }

  lemma NeverSeen(memory: FrameContents, seen: seq<Frame>, content: seq<bv64>)
    requires forall i :: 0 <= i < |seen| ==> memory(seen[i]) != content
    ensures Distinct(memory, seen, content) == []
  {
    var d := Distinct(memory, seen, content);
    assert |d| > 0 ==> d[0] in d;
    DistinctFacts(memory, seen, content);
    hide Distinct;
    assert forall x :: x !in d;
  }

  /** The group of a content never seen before. */
  lemma FirstObservation(memory: FrameContents, sig: SignWords, seen: seq<Frame>, f: Frame)
    requires forall i :: 0 <= i < |seen| ==> memory(seen[i]) != memory(f)
    ensures Expected(memory, sig, seen + [f], memory(f)) == NewEntry(f, sig(memory(f)))
  {
    var c := memory(f);
    NeverSeen(memory, seen, c);
    assert (seen + [f])[..|seen|] == seen;
    assert Distinct(memory, seen + [f], c) == [f];
    UnlistedIsZero(memory, seen + [f], c, [f]);
    hide Distinct, Unlisted;
  }

  /** The entry's own rule, list while there is room and count what is not listed, keeps the
      group the expected one. */
  lemma LaterObservation(memory: FrameContents, sig: SignWords, seen: seq<Frame>, f: Frame)
    ensures var e := Expected(memory, sig, seen, memory(f));
            e.frames != [] ==> Flagged(e, f) == Expected(memory, sig, seen + [f], memory(f))
  {
    var c := memory(f);
    assert (seen + [f])[..|seen|] == seen;
    var d, listed := Distinct(memory, seen, c), Listed(memory, seen, c);
    DistinctFacts(memory, seen, c);
    if |d| <= SLOTS {
      UnlistedIsZero(memory, seen, c, d);
      if f !in d && |d| < SLOTS {
        UnlistedIsZero(memory, seen + [f], c, d + [f]);
        assert Distinct(memory, seen + [f], c) == d + [f];
      }
      if f !in d && |d| == SLOTS {
        assert Distinct(memory, seen + [f], c) == d + [f];
        assert (d + [f])[..SLOTS] == d;
      }
    } else {
      assert f in listed ==> f in d;
      assert Listed(memory, seen + [f], c) == listed;
    }
  }

  /** Later observations extend the list of distinct frames at its end. */
  lemma {:induction false} DistinctGrowsAtEnd(memory: FrameContents, seen: seq<Frame>, more: seq<Frame>,
                                              content: seq<bv64>)
    ensures Distinct(memory, seen, content) <= Distinct(memory, seen + more, content)
  {
    if more == [] {
      assert seen + more == seen;
    } else {
      var n := |more| - 1;
      assert (seen + more)[..|seen| + n] == seen + more[..n];
      DistinctGrowsAtEnd(memory, seen, more[..n], content);
    }
  }

  ghost function UnlistedObservations(memory: FrameContents, seen: seq<Frame>, content: seq<bv64>,
                                      listed: seq<Frame>): set<nat>
  {
    set i: nat | i < |seen| && memory(seen[i]) == content && seen[i] !in listed
  }

  lemma {:induction false} UnlistedAreCounted(memory: FrameContents, seen: seq<Frame>, content: seq<bv64>,
                                              listed: seq<Frame>)
    ensures Unlisted(memory, seen, content, listed) == |UnlistedObservations(memory, seen, content, listed)|
  {
    var all := UnlistedObservations(memory, seen, content, listed);
    if seen == [] {
      assert all == {};
    } else {
      var n := |seen| - 1;
      UnlistedAreCounted(memory, seen[..n], content, listed);
      var last := if memory(seen[n]) == content && seen[n] !in listed then {n} else {};
      assert all == UnlistedObservations(memory, seen[..n], content, listed) + last;
    }
  }

  /** What the expected entry of a content seen is: its first 64 distinct frames, as many references
      as frames listed and observations of others, and shared from the second frame on. */
  lemma ExpectedEntry(memory: FrameContents, sig: SignWords, seen: seq<Frame>, content: seq<bv64>)
    requires exists i :: 0 <= i < |seen| && memory(seen[i]) == content
    ensures var d, e := Distinct(memory, seen, content), Expected(memory, sig, seen, content);
            && e.frames == (if |d| <= 64 then d else d[..64]) && d != [] && e.head == d[0]
            && e.referenceCount == |e.frames| + |UnlistedObservations(memory, seen, content, e.frames)|
            && (e.shared <==> |d| >= 2) && e.signature == sig(content)
  {
    var i :| 0 <= i < |seen| && memory(seen[i]) == content;
    DistinctFacts(memory, seen, content);
    assert seen[i] in Distinct(memory, seen, content);
    UnlistedAreCounted(memory, seen, content, Listed(memory, seen, content));
    hide Distinct, Unlisted, UnlistedObservations;
  }

  // ----- the page table is the grouping -----

  /** An entry of the grouping has frames, lists frames of its content, and is sound. */
  lemma GroupedEntry(memory: FrameContents, sig: SignWords, seen: seq<Frame>, c: Content)
    requires c in Grouped(memory, sig, seen)
    ensures var e := Grouped(memory, sig, seen)[c];
            && e.frames != [] && memory(e.head) == c && e.signature == sig(c)
            && (e.shared <==> e.referenceCount > 1)
  {
    var d, listed := Distinct(memory, seen, c), Listed(memory, seen, c);
    DistinctFacts(memory, seen, c);
    var f :| f in seen && memory(f) == c;
    assert f in d;
    if |d| <= SLOTS {
      UnlistedIsZero(memory, seen, c, d);
    }
    hide Distinct, Unlisted;
    assert listed[0] == d[0] && d[0] in d;
  }

  /** Adding a frame to the grouping by the table's own rule gives the grouping of all frames. */
  lemma AddedInKeepsGrouping(memory: FrameContents, sig: SignWords, seen: seq<Frame>, f: Frame)
    ensures AddedIn(memory, Grouped(memory, sig, seen), f, sig(memory(f))) == Grouped(memory, sig, seen + [f])
  {
    hide Expected, Flagged, Grouped, ContentsOf;
    var c, before, after := memory(f), Grouped(memory, sig, seen), Grouped(memory, sig, seen + [f]);
    ContentsGrow(memory, seen, f);
    if c in before {
      GroupedEntry(memory, sig, seen, c);
      LaterObservation(memory, sig, seen, f);
    } else {
      FirstObservation(memory, sig, seen, f);
    }
    forall x | x in before && x != c
      ensures before[x] == after[x]
    {
      OtherContentUnchanged(memory, sig, seen, f, x);
    }
  }

  lemma ContentsGrow(memory: FrameContents, seen: seq<Frame>, f: Frame)
    ensures ContentsOf(memory, seen + [f]) == ContentsOf(memory, seen) + {memory(f)}
    ensures memory(f) !in ContentsOf(memory, seen) ==> forall i :: 0 <= i < |seen| ==> memory(seen[i]) != memory(f)
  {
    assert forall i :: 0 <= i < |seen| ==> memory(seen[i]) in ContentsOf(memory, seen);
  }

  /** Adding a frame with the signature of its words keeps the table, searched through a tree of
      any shape, the grouping of all frames accepted so far. */
  lemma AddingKeepsGrouping(memory: FrameContents, sig: SignWords, frames: iset<Frame>, r: RegistryValue,
                            trees: Trees, seen: seq<Frame>, f: Frame, pool: Allocation)
    requires Contiguous(memory, sig, frames) && f in frames
    requires Represents(memory, sig, frames, r.pages, Grouped(memory, sig, seen))
    ensures var (after, status) := AddedPage(memory, r, trees, f, sig(memory(f)), pool);
            Represents(memory, sig, frames, after.pages,
                       Grouped(memory, sig, if status == Success then seen + [f] else seen))
  {
    hide Search, Contiguous, Represents, IsTidy, Fits, Flagged, Observed, Promotes, NewEntry, Grouped, MarkedShared,
         Inserted, Expected, ContentsOf;
    var m, at := Grouped(memory, sig, seen), Search(memory, r.pages, trees.pages, KeyOf(memory, sig, f));
    SearchByContent(memory, sig, frames, r.pages, m, trees.pages, f);
    NewEntryIsTidy(memory, sig, frames, f);
    AddedInKeepsGrouping(memory, sig, seen, f);
    if at.Found? {
      TidyAt(memory, sig, frames, r.pages, m, at.index);
      ObservedIsTidy(memory, sig, frames, r.pages[at.index], f);
      UpdatedRepresents(memory, sig, frames, r.pages, m, at.index, Flagged(r.pages[at.index], f));
      MarkingKeepsPages(memory, r.(pages := r.pages[at.index := Flagged(r.pages[at.index], f)]), trees.groups,
                        r.pages[at.index].head, r.pages[at.index].signature, pool);
    } else {
      InsertedRepresents(memory, sig, frames, r.pages, m, at.index, NewEntry(f, sig(memory(f))));
    }
  }

  lemma MarkingKeepsPages(memory: FrameContents, r: RegistryValue, tree: Shape, f: Frame, s: PageSignature,
                          pool: Allocation)
    ensures MarkedShared(memory, r, tree, f, s, pool).0.pages == r.pages
  {
    hide Promoted, Registered;
  }
}
