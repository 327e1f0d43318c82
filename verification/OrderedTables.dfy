/** The driver's ordered tables against maps from content to entry: under contiguous contents
    every operation acts as on the map, whatever the shapes of the trees. */
module OrderedTables {
  import opened Pages
  import opened PageOrder
  import opened Registry

  type Content = seq<bv64>

  /** At most one entry for each content. */
  type ContentTable = map<Content, EntryValue>

  // ----- the operations on maps -----

  function PromotedIn(memory: FrameContents, m: ContentTable, f: Frame, s: PageSignature, inPool: bool): ContentTable {
    var c := memory(f);
    if c in m then m[c := Observed(m[c], f)]
    else if inPool then m[c := NewEntry(f, s)]
    else m
  }

  /** Demotion finds the frame's group only when frame 0 holds the words of the frame. */
  predicate Demotes(memory: FrameContents, m: ContentTable, f: Frame) {
    memory(f) == memory(0) && memory(f) in m && f in m[memory(f)].frames
  }

  function DemotedIn(memory: FrameContents, m: ContentTable, f: Frame): ContentTable {
    if !Demotes(memory, m, f) then m
    else
      var c := memory(f);
      var g := Removed(m[c], f);
      if g.frames == [] || g.referenceCount == 0 then m - {c} else m[c := g]
  }

  function AddedIn(memory: FrameContents, m: ContentTable, f: Frame, s: PageSignature): ContentTable {
    var c := memory(f);
    m[c := if c in m then Flagged(m[c], f) else NewEntry(f, s)]
  }

  // ----- tables that represent maps -----

  /** Sound, signed by the content of its tracked frames, which all hold the same words. */
  ghost predicate IsTidy(memory: FrameContents, sig: SignWords, frames: iset<Frame>, e: EntryValue) {
    && IsSound(e) && e.signature == sig(memory(e.head))
    && forall x :: x in e.frames ==> x in frames && memory(x) == memory(e.head)
  }

  ghost predicate AllTidy(memory: FrameContents, sig: SignWords, frames: iset<Frame>, table: TableValue) {
    forall i :: 0 <= i < |table| ==> IsTidy(memory, sig, frames, table[i])
  }

  ghost predicate IsOrdered(memory: FrameContents, table: TableValue) {
    forall i, j :: 0 <= i < j < |table| ==> Less(memory, EntryKey(table[i]), EntryKey(table[j]))
  }

  ghost predicate HasEntry(memory: FrameContents, table: TableValue, content: Content) {
    exists i :: 0 <= i < |table| && memory(table[i].head) == content
  }

  /** The map's entry for the content of an entry. */
  predicate Lists(memory: FrameContents, m: ContentTable, e: EntryValue) {
    var c := memory(e.head);
    c in m && m[c] == e
  }

  /** The table lists the entries of the map, without regard to order. */
  ghost predicate SameEntries(memory: FrameContents, table: TableValue, m: ContentTable) {
    && (forall i :: 0 <= i < |table| ==> Lists(memory, m, table[i]))
    && (forall i, j :: 0 <= i < j < |table| ==> memory(table[i].head) != memory(table[j].head))
    && (forall c :: c in m ==> HasEntry(memory, table, c))
  }

  ghost predicate Represents(memory: FrameContents, sig: SignWords, frames: iset<Frame>, table: TableValue,
                             m: ContentTable)
  {
    AllTidy(memory, sig, frames, table) && IsOrdered(memory, table) && SameEntries(memory, table, m)
  }

  lemma TidyFacts(memory: FrameContents, sig: SignWords, frames: iset<Frame>, e: EntryValue)
    requires IsTidy(memory, sig, frames, e)
    ensures e.head in frames && e.head in e.frames && EntryKey(e) == KeyOf(memory, sig, e.head)
  {}

  // ----- lookups -----

  /** A new key goes between the entries that are less and those that are greater. */
  ghost predicate Fits(memory: FrameContents, table: TableValue, key: Key, k: nat) {
    && k <= |table|
    && (forall i :: 0 <= i < k ==> Less(memory, EntryKey(table[i]), key))
    && (forall i :: k <= i < |table| ==> Less(memory, key, EntryKey(table[i])))
  }

  lemma SearchEndsInPlace(memory: FrameContents, sig: SignWords, frames: iset<Frame>, table: TableValue,
                          tree: Shape, f: Frame)
    requires Contiguous(memory, sig, frames) && f in frames
    requires AllTidy(memory, sig, frames, table) && IsOrdered(memory, table)
    ensures var at := Search(memory, table, tree, KeyOf(memory, sig, f));
            at.Absent? ==> Fits(memory, table, KeyOf(memory, sig, f), at.index)
  {
    hide Descend, Less, KeyOf, Contiguous, AllTidy, AreTracked, EntryKey, IsOrdered, IsSorted;
    KeysAreTracked(memory, sig, frames, table);
    KeysAreSorted(memory, table);
    DescentEndsInPlace(memory, sig, frames, KeysOf(table), Fitted(tree, |table|), 0, f);
  }

  lemma KeysAreSorted(memory: FrameContents, table: TableValue)
    requires IsOrdered(memory, table)
    ensures IsSorted(memory, KeysOf(table))
  {
    hide Less, EntryKey;
  }

  lemma KeysAreTracked(memory: FrameContents, sig: SignWords, frames: iset<Frame>, table: TableValue)
    requires AllTidy(memory, sig, frames, table)
    ensures AreTracked(memory, sig, frames, KeysOf(table))
  {
    hide IsTidy, KeyOf;
    var keys := KeysOf(table);
    forall i | 0 <= i < |keys|
      ensures keys[i].frame in frames && keys[i] == KeyOf(memory, sig, keys[i].frame)
    {
      TidyFacts(memory, sig, frames, table[i]);
    }
  }

  /** A lookup finds the entry of the frame's content, or the place for a new one. */
  lemma SearchByContent(memory: FrameContents, sig: SignWords, frames: iset<Frame>, table: TableValue,
                        m: ContentTable, tree: Shape, f: Frame)
    requires Contiguous(memory, sig, frames) && f in frames && Represents(memory, sig, frames, table, m)
    ensures match Search(memory, table, tree, KeyOf(memory, sig, f))
            case Found(k) => memory(table[k].head) == memory(f) && memory(f) in m && m[memory(f)] == table[k]
            case Absent(k) => memory(f) !in m && Fits(memory, table, KeyOf(memory, sig, f), k)
  {
    var at := Search(memory, table, tree, KeyOf(memory, sig, f));
    SearchEndsInPlace(memory, sig, frames, table, tree, f);
    hide Search, Less, Contiguous, IsTidy, IsOrdered;
    match at
    case Found(k) =>
      MatchesExactly(memory, KeyOf(memory, sig, f), table[k]);
      assert Lists(memory, m, table[k]);
    case Absent(k) =>
      forall i | 0 <= i < |table|
        ensures memory(table[i].head) != memory(f)
      {
        TidyFacts(memory, sig, frames, table[i]);
        if i < k {
          LessDiffers(memory, sig, table[i].head, f);
        } else {
          LessDiffers(memory, sig, f, table[i].head);
        }
      }
  }

  // ----- changes of one entry -----

  lemma InsertedIsOrdered(memory: FrameContents, table: TableValue, k: nat, e: EntryValue)
    requires IsOrdered(memory, table) && Fits(memory, table, EntryKey(e), k)
    ensures IsOrdered(memory, Inserted(table, k, e))
  {
    hide Less, EntryKey, Inserted;
    var after := Inserted(table, k, e);
    assert forall i :: 0 <= i < |after| && i != k ==> after[i] == table[if i < k then i else i - 1];
  }

  lemma InsertedHasEntry(memory: FrameContents, table: TableValue, k: nat, e: EntryValue, c: Content)
    requires k <= |table| && (HasEntry(memory, table, c) || c == memory(e.head))
    ensures HasEntry(memory, Inserted(table, k, e), c)
  {
    hide Inserted;
    var after := Inserted(table, k, e);
    if i :| 0 <= i < |table| && memory(table[i].head) == c {
      assert after[if i < k then i else i + 1] == table[i];
    } else {
      assert after[k] == e;
    }
  }

  lemma InsertedEntries(memory: FrameContents, table: TableValue, m: ContentTable, k: nat, e: EntryValue)
    requires SameEntries(memory, table, m) && k <= |table| && memory(e.head) !in m
    ensures SameEntries(memory, Inserted(table, k, e), m[memory(e.head) := e])
  {
    hide Inserted, HasEntry;
    var after, m' := Inserted(table, k, e), m[memory(e.head) := e];
    assert forall i :: 0 <= i < |after| && i != k ==> after[i] == table[if i < k then i else i - 1];
    assert forall i :: 0 <= i < |table| ==> Lists(memory, m, table[i]);
    forall c | c in m'
      ensures HasEntry(memory, after, c)
    {
      InsertedHasEntry(memory, table, k, e, c);
    }
  }

  lemma InsertedRepresents(memory: FrameContents, sig: SignWords, frames: iset<Frame>, table: TableValue,
                           m: ContentTable, k: nat, e: EntryValue)
    requires Represents(memory, sig, frames, table, m) && IsTidy(memory, sig, frames, e)
    requires memory(e.head) !in m && Fits(memory, table, EntryKey(e), k)
    ensures Represents(memory, sig, frames, Inserted(table, k, e), m[memory(e.head) := e])
  {
    hide IsTidy, EntryKey, Inserted, IsOrdered, SameEntries;
    InsertedIsOrdered(memory, table, k, e);
    InsertedEntries(memory, table, m, k, e);
  }

  lemma UpdatedRepresents(memory: FrameContents, sig: SignWords, frames: iset<Frame>, table: TableValue,
                          m: ContentTable, k: nat, e: EntryValue)
    requires Contiguous(memory, sig, frames) && Represents(memory, sig, frames, table, m)
    requires k < |table| && IsTidy(memory, sig, frames, e) && memory(e.head) == memory(table[k].head)
    ensures Represents(memory, sig, frames, table[k := e], m[memory(e.head) := e])
  {
    hide Less, IsTidy, EntryKey, Contiguous;
    var after, m' := table[k := e], m[memory(e.head) := e];
    forall i | 0 <= i < |table| && i != k
      ensures Less(memory, EntryKey(table[i]), EntryKey(e)) <==> Less(memory, EntryKey(table[i]), EntryKey(table[k]))
      ensures Less(memory, EntryKey(e), EntryKey(table[i])) <==> Less(memory, EntryKey(table[k]), EntryKey(table[i]))
    {
      TidyFacts(memory, sig, frames, table[i]);
      TidyFacts(memory, sig, frames, table[k]);
      TidyFacts(memory, sig, frames, e);
      SideOfTwin(memory, sig, frames, e.head, table[k].head, table[i].head);
    }
    forall c | c in m'
      ensures HasEntry(memory, after, c)
    {
      assert Lists(memory, m, table[k]);
      assert HasEntry(memory, table, c);
      var i :| 0 <= i < |table| && memory(table[i].head) == c;
      assert memory(after[i].head) == c;
    }
  }

  lemma DeletedHasEntry(memory: FrameContents, table: TableValue, k: nat, c: Content)
    requires k < |table| && HasEntry(memory, table, c) && c != memory(table[k].head)
    ensures HasEntry(memory, Deleted(table, k), c)
  {
    hide Deleted;
    var i :| 0 <= i < |table| && memory(table[i].head) == c;
    assert Deleted(table, k)[if i < k then i else i - 1] == table[i];
  }

  lemma DeletedEntries(memory: FrameContents, table: TableValue, m: ContentTable, k: nat)
    requires SameEntries(memory, table, m) && k < |table|
    ensures SameEntries(memory, Deleted(table, k), m - {memory(table[k].head)})
  {
    hide Deleted, HasEntry;
    var after, m' := Deleted(table, k), m - {memory(table[k].head)};
    assert forall i :: 0 <= i < |after| ==> after[i] == table[if i < k then i else i + 1];
    forall c | c in m'
      ensures HasEntry(memory, after, c)
    {
      DeletedHasEntry(memory, table, k, c);
    }
  }

  lemma DeletedRepresents(memory: FrameContents, sig: SignWords, frames: iset<Frame>, table: TableValue,
                          m: ContentTable, k: nat)
    requires Represents(memory, sig, frames, table, m) && k < |table|
    ensures Represents(memory, sig, frames, Deleted(table, k), m - {memory(table[k].head)})
  {
    hide Less, IsTidy, EntryKey, Deleted, SameEntries;
    DeletedEntries(memory, table, m, k);
    var after := Deleted(table, k);
    assert forall i :: 0 <= i < |after| ==> after[i] == table[if i < k then i else i + 1];
  }

  // ----- the operations on tables refine those on maps -----

  lemma ObservedIsTidy(memory: FrameContents, sig: SignWords, frames: iset<Frame>, e: EntryValue, f: Frame)
    requires IsTidy(memory, sig, frames, e) && f in frames && memory(f) == memory(e.head)
    ensures IsTidy(memory, sig, frames, Observed(e, f)) && Observed(e, f).head == e.head
    ensures IsTidy(memory, sig, frames, Flagged(e, f)) && Flagged(e, f).head == e.head
  {
    ObservedIsSound(e, f);
  }

  lemma RemovedIsTidy(memory: FrameContents, sig: SignWords, frames: iset<Frame>, e: EntryValue, f: Frame)
    requires IsTidy(memory, sig, frames, e) && f in e.frames && Removed(e, f).frames != []
    ensures IsTidy(memory, sig, frames, Removed(e, f)) && memory(Removed(e, f).head) == memory(e.head)
  {
    RemovedIsSound(e, f);
    WithoutMembers(e.frames, f);
    hide Without;
    var g := Removed(e, f);
    assert g.frames[0] in g.frames;
  }

  lemma NewEntryIsTidy(memory: FrameContents, sig: SignWords, frames: iset<Frame>, f: Frame)
    requires f in frames
    ensures IsTidy(memory, sig, frames, NewEntry(f, sig(memory(f))))
    ensures EntryKey(NewEntry(f, sig(memory(f)))) == KeyOf(memory, sig, f) && NewEntry(f, sig(memory(f))).head == f
  {}

  /** Promotion grows the group of the frame's content, or makes one if the pool serves it. */
  lemma PromotedRepresents(memory: FrameContents, sig: SignWords, frames: iset<Frame>, groups: TableValue,
                           m: ContentTable, tree: Shape, f: Frame, inPool: bool)
    requires Contiguous(memory, sig, frames) && f in frames && Represents(memory, sig, frames, groups, m)
    ensures var s := sig(memory(f));
            var (after, status) := Promoted(memory, groups, tree, f, s, inPool);
            && Represents(memory, sig, frames, after, PromotedIn(memory, m, f, s, inPool))
            && status == (if memory(f) in m || inPool then Success else InsufficientResources)
            && |after| == |groups| + (if memory(f) !in m && inPool then 1 else 0)
  {
    SearchByContent(memory, sig, frames, groups, m, tree, f);
    NewEntryIsTidy(memory, sig, frames, f);
    hide Search, Contiguous, Represents, IsTidy, Fits, Observed, Flagged, NewEntry;
    match Search(memory, groups, tree, KeyOf(memory, sig, f))
    case Found(k) =>
      TidyAt(memory, sig, frames, groups, m, k);
      ObservedIsTidy(memory, sig, frames, groups[k], f);
      UpdatedRepresents(memory, sig, frames, groups, m, k, Observed(groups[k], f));
    case Absent(k) =>
      InsertedRepresents(memory, sig, frames, groups, m, k, NewEntry(f, sig(memory(f))));
  }

  lemma TidyAt(memory: FrameContents, sig: SignWords, frames: iset<Frame>, table: TableValue, m: ContentTable, k: nat)
    requires Represents(memory, sig, frames, table, m) && k < |table|
    ensures IsTidy(memory, sig, frames, table[k]) && Lists(memory, m, table[k])
  {}

  /** Searching for an entry's own key finds that entry, so deletions take out what they name. */
  lemma OwnKeyIsFound(memory: FrameContents, sig: SignWords, frames: iset<Frame>, table: TableValue,
                      m: ContentTable, tree: Shape, k: nat)
    requires Contiguous(memory, sig, frames) && Represents(memory, sig, frames, table, m) && k < |table|
    ensures Search(memory, table, tree, EntryKey(table[k])) == Found(k)
    ensures Erased(memory, table, tree, EntryKey(table[k])) == Deleted(table, k)
  {
    hide Search, Contiguous, IsTidy, IsOrdered, Deleted;
    TidyAt(memory, sig, frames, table, m, k);
    TidyFacts(memory, sig, frames, table[k]);
    SearchByContent(memory, sig, frames, table, m, tree, table[k].head);
  }

  /** So does searching for the key of an entry that was just emptied. */
  lemma EmptiedIsFound(memory: FrameContents, sig: SignWords, frames: iset<Frame>, table: TableValue,
                       m: ContentTable, tree: Shape, k: nat, g: EntryValue)
    requires Contiguous(memory, sig, frames) && Represents(memory, sig, frames, table, m) && k < |table|
    requires EntryKey(g) == EntryKey(table[k])
    ensures Erased(memory, table[k := g], tree, EntryKey(g)) == Deleted(table, k)
  {
    OwnKeyIsFound(memory, sig, frames, table, m, tree, k);
    hide Contiguous, Represents, Descend, EntryKey;
    assert KeysOf(table[k := g]) == KeysOf(table);
  }

  /** Demotion takes the frame out of the group of its content, exactly when frame 0 has that
      content too and the group lists the frame; otherwise it changes nothing. */
  lemma DemotedRepresents(memory: FrameContents, sig: SignWords, frames: iset<Frame>, groups: TableValue,
                          m: ContentTable, trees: DemotionTrees, f: Frame)
    requires Contiguous(memory, sig, frames) && 0 in frames && Represents(memory, sig, frames, groups, m)
    ensures var (after, status) := Demoted(memory, groups, trees, f, sig(memory(f)));
            && Represents(memory, sig, frames, after, DemotedIn(memory, m, f))
            && status == (if Demotes(memory, m, f) then Success else NotFound)
            && (status == NotFound ==> after == groups)
  {
    hide Search, Contiguous, Represents, IsTidy, Fits, Removed, Deleted, Erased;
    var s := sig(memory(f));
    var at := Search(memory, groups, trees.lookup, Key(s, 0));
    if memory(f) == memory(0) {
      assert Key(s, 0) == KeyOf(memory, sig, 0);
      SearchByContent(memory, sig, frames, groups, m, trees.lookup, 0);
    }
    if at.Found? {
      var k, g := at.index, groups[at.index];
      MatchesExactly(memory, Key(s, 0), g);
      TidyAt(memory, sig, frames, groups, m, k);
      if memory(f) != memory(0) {
        OtherFrameIsNotListed(memory, sig, frames, g, f);
      } else if f in g.frames {
        RemovedFromTidy(memory, sig, frames, g, f);
        if Removed(g, f).frames == [] {
          EmptiedIsFound(memory, sig, frames, groups, m, trees.deletion, k, Removed(g, f));
          DeletedRepresents(memory, sig, frames, groups, m, k);
        } else {
          RemovedIsTidy(memory, sig, frames, g, f);
          UpdatedRepresents(memory, sig, frames, groups, m, k, Removed(g, f));
        }
      }
    }
  }

  /** A group that keeps a frame keeps a reference, and one that does not keeps its key. */
  lemma RemovedFromTidy(memory: FrameContents, sig: SignWords, frames: iset<Frame>, e: EntryValue, f: Frame)
    requires IsTidy(memory, sig, frames, e) && f in e.frames
    ensures Removed(e, f).frames == [] ==> EntryKey(Removed(e, f)) == EntryKey(e)
    ensures Removed(e, f).frames != [] ==> Removed(e, f).referenceCount > 0
  {
    RemovedIsSound(e, f);
  }

  lemma OtherFrameIsNotListed(memory: FrameContents, sig: SignWords, frames: iset<Frame>, e: EntryValue, f: Frame)
    requires IsTidy(memory, sig, frames, e) && memory(f) != memory(e.head)
    ensures f !in e.frames
  {}

  // ----- a table and its map determine each other -----

  ghost predicate IsTidyTable(memory: FrameContents, sig: SignWords, frames: iset<Frame>, table: TableValue) {
    AllTidy(memory, sig, frames, table) && IsOrdered(memory, table)
  }

  function ByContent(memory: FrameContents, table: TableValue): ContentTable {
    if table == [] then map[]
    else
      var n := |table| - 1;
      ByContent(memory, table[..n])[memory(table[n].head) := table[n]]
  }

  lemma LastFitsLast(memory: FrameContents, sig: SignWords, frames: iset<Frame>, table: TableValue)
    requires IsTidyTable(memory, sig, frames, table) && table != []
    ensures var n := |table| - 1;
            && IsTidyTable(memory, sig, frames, table[..n]) && IsTidy(memory, sig, frames, table[n])
            && Fits(memory, table[..n], EntryKey(table[n]), n) && Inserted(table[..n], n, table[n]) == table
  {
    hide Less, IsTidy, EntryKey;
    var n := |table| - 1;
    assert table[..n] + [table[n]] + table[..n][n..] == table;
  }

  lemma {:induction false} TidyTableRepresents(memory: FrameContents, sig: SignWords, frames: iset<Frame>,
                                               table: TableValue)
    requires IsTidyTable(memory, sig, frames, table)
    ensures Represents(memory, sig, frames, table, ByContent(memory, table))
  {
    hide Less, IsTidy, EntryKey;
    if table == [] {
      return;
    }
    hide SameEntries, AllTidy, IsOrdered, Fits, Inserted;
    var n := |table| - 1;
    var m := ByContent(memory, table[..n]);
    LastFitsLast(memory, sig, frames, table);
    TidyTableRepresents(memory, sig, frames, table[..n]);
    LastContentIsNew(memory, sig, frames, table, m);
    InsertedRepresents(memory, sig, frames, table[..n], m, n, table[n]);
  }

  lemma LastContentIsNew(memory: FrameContents, sig: SignWords, frames: iset<Frame>, table: TableValue, m: ContentTable)
    requires IsTidyTable(memory, sig, frames, table) && table != []
    requires Represents(memory, sig, frames, table[..|table| - 1], m)
    ensures memory(table[|table| - 1].head) !in m
  {
    hide Less, IsTidy, EntryKey, SameEntries;
    var n := |table| - 1;
    if memory(table[n].head) in m {
      var i := EntryOfContent(memory, sig, frames, table[..n], m, memory(table[n].head));
      assert table[..n][i] == table[i];
      TidyFacts(memory, sig, frames, table[i]);
      TidyFacts(memory, sig, frames, table[n]);
      LessDiffers(memory, sig, table[i].head, table[n].head);
    }
  }

  lemma EveryContentHasEntry(memory: FrameContents, sig: SignWords, frames: iset<Frame>, table: TableValue,
                             m: ContentTable, c: Content)
    requires Represents(memory, sig, frames, table, m) && c in m
    ensures HasEntry(memory, table, c)
  {}

  lemma EntryOfContent(memory: FrameContents, sig: SignWords, frames: iset<Frame>, table: TableValue,
                       m: ContentTable, c: Content) returns (i: nat)
    requires Represents(memory, sig, frames, table, m) && c in m
    ensures i < |table| && table[i] == m[c] && memory(table[i].head) == c
  {
    hide Less, IsTidy, EntryKey;
    assert HasEntry(memory, table, c);
    i :| 0 <= i < |table| && memory(table[i].head) == c;
    assert Lists(memory, m, table[i]);
  }

  lemma MapIsUnique(memory: FrameContents, sig: SignWords, frames: iset<Frame>, table: TableValue,
                    m: ContentTable, m': ContentTable)
    requires Represents(memory, sig, frames, table, m) && Represents(memory, sig, frames, table, m')
    ensures m == m'
  {
    hide Represents;
    forall c
      ensures c in m <==> c in m'
      ensures c in m ==> m[c] == m'[c]
    {
      if c in m {
        var i := EntryOfContent(memory, sig, frames, table, m, c);
        TidyAt(memory, sig, frames, table, m', i);
      }
      if c in m' {
        var i := EntryOfContent(memory, sig, frames, table, m', c);
        TidyAt(memory, sig, frames, table, m, i);
      }
    }
  }

  lemma LeastIsUnique(memory: FrameContents, sig: SignWords, frames: iset<Frame>, table: TableValue,
                      table': TableValue, m: ContentTable)
    requires Represents(memory, sig, frames, table, m) && Represents(memory, sig, frames, table', m)
    requires table != [] && table' != []
    ensures table[0] == table'[0]
  {
    hide Less, IsTidy, EntryKey;
    var i := EntryOfContent(memory, sig, frames, table, m, memory(table'[0].head));
    var j := EntryOfContent(memory, sig, frames, table', m, memory(table[0].head));
    assert Lists(memory, m, table[0]) && Lists(memory, m, table'[0]);
    if i > 0 && j > 0 {
      LessIsAntisymmetric(memory, EntryKey(table[0]), EntryKey(table'[0]));
    }
  }

  lemma LessIsAntisymmetric(memory: FrameContents, a: Key, b: Key)
    ensures !(Less(memory, a, b) && Less(memory, b, a))
  {
    CompareBySignatureThenFrame(memory, a, b);
    hide Compare, SignatureBefore;
  }

  /** An ordered table is determined by the entries it represents: neither the shapes of its
      trees nor the order of insertions shows. */
  lemma {:induction false} RepresentationIsUnique(memory: FrameContents, sig: SignWords, frames: iset<Frame>,
                                                  table: TableValue, table': TableValue, m: ContentTable)
    requires Represents(memory, sig, frames, table, m) && Represents(memory, sig, frames, table', m)
    ensures table == table'
    decreases |table|
  {
    hide Represents, Deleted;
    if table == [] || table' == [] {
      EmptyTableOnly(memory, sig, frames, table, m);
      EmptyTableOnly(memory, sig, frames, table', m);
    } else {
      LeastIsUnique(memory, sig, frames, table, table', m);
      DeletedRepresents(memory, sig, frames, table, m, 0);
      DeletedRepresents(memory, sig, frames, table', m, 0);
      RepresentationIsUnique(memory, sig, frames, Deleted(table, 0), Deleted(table', 0),
                             m - {memory(table[0].head)});
      assert table == [table[0]] + Deleted(table, 0);
      assert table' == [table'[0]] + Deleted(table', 0);
    }
  }

  lemma EmptyTableOnly(memory: FrameContents, sig: SignWords, frames: iset<Frame>, table: TableValue, m: ContentTable)
    requires Represents(memory, sig, frames, table, m)
    ensures table == [] <==> m == map[]
  {
    hide Represents;
    if table != [] {
      TidyAt(memory, sig, frames, table, m, 0);
    } else if c :| c in m {
      EveryContentHasEntry(memory, sig, frames, table, m, c);
    }
  }

  // ----- what demotion undoes -----

  /** A group has room for the frame and does not list it. */
  predicate HasRoomFor(g: EntryValue, f: Frame) {
    f !in g.frames && |g.frames| < SLOTS
  }

  lemma DemotedInUndoes(memory: FrameContents, m: ContentTable, f: Frame, s: PageSignature)
    requires memory(f) in m ==> IsSound(m[memory(f)])
    ensures var promoted, c := PromotedIn(memory, m, f, s, true), memory(f);
            && (Demotes(memory, promoted, f) && DemotedIn(memory, promoted, f) == m
                <==> memory(0) == c && (c in m ==> HasRoomFor(m[c], f)))
            && (!Demotes(memory, promoted, f)
                <==> memory(0) != c || (c in m && f !in m[c].frames && |m[c].frames| == SLOTS))
  {
    var promoted, c := PromotedIn(memory, m, f, s, true), memory(f);
    var g := promoted[c];
    if c !in m {
      assert Removed(g, f).frames == [];
      assert promoted - {c} == m;
    } else if f in m[c].frames {
      WithoutMembers(g.frames, f);
      assert promoted == m;
    } else if |m[c].frames| < SLOTS {
      WithoutAppended(m[c].frames, f);
      assert Removed(g, f) == m[c];
    }
  }

  /** Demoting undoes promoting exactly when frame 0 holds the words of the frame and the frame
      was new to a group with room, or to no group.  It finds nothing exactly when frame 0 holds
      other words or the group was full: a 65th frame is counted and never uncounted. */
  lemma DemoteUndoesPromoteExactly(memory: FrameContents, sig: SignWords, frames: iset<Frame>, groups: TableValue,
                                   first: Shape, second: DemotionTrees, f: Frame)
    requires Contiguous(memory, sig, frames) && f in frames && 0 in frames
    requires IsTidyTable(memory, sig, frames, groups)
    ensures var s := sig(memory(f));
            var after := Promoted(memory, groups, first, f, s, true).0;
            && (Demoted(memory, after, second, f, s) == (groups, Success)
                <==> memory(0) == memory(f)
                     && forall g :: g in groups && memory(g.head) == memory(f) ==> HasRoomFor(g, f))
            && (Demoted(memory, after, second, f, s) == (after, NotFound)
                <==> memory(0) != memory(f)
                     || exists g :: g in groups && memory(g.head) == memory(f) && f !in g.frames
                                    && |g.frames| == SLOTS)
  {
    hide Promoted, Demoted, PromotedIn, DemotedIn, Demotes, Contiguous, Represents, IsTidyTable, ByContent,
         HasRoomFor;
    var s, m, c := sig(memory(f)), ByContent(memory, groups), memory(f);
    var after, promoted := Promoted(memory, groups, first, f, s, true).0, PromotedIn(memory, m, f, s, true);
    var (last, status) := Demoted(memory, after, second, f, s);
    TidyTableRepresents(memory, sig, frames, groups);
    PromotedRepresents(memory, sig, frames, groups, m, first, f, true);
    DemotedRepresents(memory, sig, frames, after, promoted, second, f);
    GroupOfContent(memory, sig, frames, groups, m, c);
    DemotedInUndoes(memory, m, f, s);
    if DemotedIn(memory, promoted, f) == m {
      RepresentationIsUnique(memory, sig, frames, groups, last, m);
    }
    if last == groups {
      MapIsUnique(memory, sig, frames, groups, m, DemotedIn(memory, promoted, f));
    }
  }

  lemma GroupOfContent(memory: FrameContents, sig: SignWords, frames: iset<Frame>, table: TableValue,
                       m: ContentTable, c: Content)
    requires Represents(memory, sig, frames, table, m)
    ensures c in m ==> IsSound(m[c])
    ensures forall g :: g in table && memory(g.head) == c <==> c in m && g == m[c]
  {
    hide Represents, IsSound;
    if c in m {
      var i := EntryOfContent(memory, sig, frames, table, m, c);
      TidyAt(memory, sig, frames, table, m, i);
    }
    forall g | g in table && memory(g.head) == c
      ensures c in m && g == m[c]
    {
      var i :| 0 <= i < |table| && table[i] == g;
      TidyAt(memory, sig, frames, table, m, i);
    }
  }
}
