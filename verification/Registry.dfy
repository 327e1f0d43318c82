/** The driver's tables as values, and the effect of each operation on them
    (`driver/deduper.cpp`). */
module Registry {
  import opened Pages
  import opened PageOrder

  const SLOTS: nat := 64

  datatype Status =
    | Success
    | NotFound
    | InsufficientResources
    | NotSupported
    | InvalidParameter
    | NoPrivateCopy
    | BufferTooSmall

  /** A page entry or a shared group: the first four fields are laid out alike, and one
      comparator serves both tables.  A group has no Shared flag; it is false here.  The head is
      slot 0 of the frame array, which keeps its number when the last frame is removed. */
  datatype EntryValue = EntryValue(
    signature: PageSignature,
    referenceCount: nat,
    frames: seq<Frame>,
    shared: bool,
    head: Frame)

  type TableValue = seq<EntryValue>

  function EntryKey(e: EntryValue): Key {
    Key(e.signature, e.head)
  }

  /** An entry that was just created. */
  function NewEntry(f: Frame, s: PageSignature): EntryValue {
    EntryValue(s, 1, [f], false, f)
  }

  // ----- lookup and insertion -----

  predicate Matches(memory: FrameContents, key: Key, e: EntryValue) {
    Compare(memory, key, EntryKey(e)) == 0
  }

  /** The comparator calls two entries equal exactly when signatures and contents agree. */
  lemma MatchesExactly(memory: FrameContents, key: Key, e: EntryValue)
    ensures Matches(memory, key, e) <==> key.signature == e.signature && memory(key.frame) == memory(e.head)
  {
    CompareBySignatureThenFrame(memory, key, EntryKey(e));
    hide Compare;
  }

  function KeysOf(table: TableValue): (keys: seq<Key>)
    ensures |keys| == |table|
    ensures forall i :: 0 <= i < |table| ==> keys[i] == EntryKey(table[i])
  {
    seq(|table|, i requires 0 <= i < |table| => EntryKey(table[i]))
  }

  /** A lookup in a table that its tree, of the shape it has at the moment, lists in this order. */
  function Search(memory: FrameContents, table: TableValue, tree: Shape, key: Key): (at: Place)
    ensures at.Found? ==> at.index < |table| && Matches(memory, key, table[at.index])
    ensures at.Absent? ==> at.index <= |table|
  {
    Descend(memory, KeysOf(table), Fitted(tree, |table|), 0, key)
  }

  function Inserted(table: TableValue, k: nat, e: EntryValue): (after: TableValue)
    requires k <= |table|
    ensures |after| == |table| + 1 && after[k] == e
    ensures forall i :: 0 <= i < k ==> after[i] == table[i]
    ensures forall i :: k <= i < |table| ==> after[i + 1] == table[i]
    ensures forall i :: k < i < |after| ==> after[i] == table[i - 1]
  {
    table[..k] + [e] + table[k..]
  }

  function Deleted(table: TableValue, k: nat): (after: TableValue)
    requires k < |table|
    ensures |after| == |table| - 1
    ensures forall i :: 0 <= i < k ==> after[i] == table[i]
    ensures forall i :: k <= i < |after| ==> after[i] == table[i + 1]
    ensures forall i :: k < i < |table| ==> after[i - 1] == table[i]
  {
    table[..k] + table[k + 1..]
  }

  /** Deleting an element searches for it again, and takes out the entry found. */
  function Erased(memory: FrameContents, table: TableValue, tree: Shape, key: Key): (after: TableValue)
    ensures |after| == |table| - (if Search(memory, table, tree, key).Found? then 1 else 0)
  {
    match Search(memory, table, tree, key)
    case Found(k) => Deleted(table, k)
    case Absent(_) => table
  }

  // ----- frame lists -----

  /** Counts a frame that is not listed, and lists it while there is room. */
  function Observed(e: EntryValue, f: Frame): EntryValue {
    if f in e.frames then e
    else
      e.(frames := if |e.frames| < SLOTS then e.frames + [f] else e.frames,
         head := if e.frames == [] then f else e.head,
         referenceCount := e.referenceCount + 1)
  }

  function Without(frames: seq<Frame>, f: Frame): seq<Frame> {
    if frames == [] then []
    else if frames[0] == f then frames[1..]
    else [frames[0]] + Without(frames[1..], f)
  }

  /** Removing the frame at its first place keeps the order of the others. */
  lemma {:induction false} WithoutAt(frames: seq<Frame>, f: Frame, k: nat)
    requires k < |frames| && frames[k] == f && forall j :: 0 <= j < k ==> frames[j] != f
    ensures Without(frames, f) == frames[..k] + frames[k + 1..]
  {
    if k > 0 {
      WithoutAt(frames[1..], f, k - 1);
      assert frames[..k] == [frames[0]] + frames[1..][..k - 1];
    }
  }

  lemma {:induction false} WithoutAppended(frames: seq<Frame>, f: Frame)
    requires f !in frames
    ensures Without(frames + [f], f) == frames
  {
    if frames != [] {
      WithoutAppended(frames[1..], f);
      assert (frames + [f])[1..] == frames[1..] + [f];
    }
  }

  // ----- shared groups -----

  function Promoted(memory: FrameContents, groups: TableValue, tree: Shape, f: Frame, s: PageSignature,
                    inPool: bool): (TableValue, Status)
  {
    match Search(memory, groups, tree, Key(s, f))
    case Found(k) => (groups[k := Observed(groups[k], f)], Success)
    case Absent(k) =>
      if inPool then (Inserted(groups, k, NewEntry(f, s)), Success) else (groups, InsufficientResources)
  }

  function Removed(g: EntryValue, f: Frame): EntryValue {
    var frames := Without(g.frames, f);
    g.(frames := frames,
       head := if frames == [] then g.head else frames[0],
       referenceCount := if g.referenceCount > 0 then g.referenceCount - 1 else 0)
  }

  /** The shape of the group table's tree when a demotion looks a group up, and when it deletes it. */
  datatype DemotionTrees = DemotionTrees(lookup: Shape, deletion: Shape)

  /** The lookup key carries frame 0, whatever frame is to be removed. */
  function Demoted(memory: FrameContents, groups: TableValue, trees: DemotionTrees, f: Frame,
                   s: PageSignature): (TableValue, Status)
  {
    match Search(memory, groups, trees.lookup, Key(s, 0))
    case Absent(_) => (groups, NotFound)
    case Found(k) =>
      if f !in groups[k].frames then (groups, NotFound)
      else
        var g := Removed(groups[k], f);
        var after := groups[k := g];
        if g.frames == [] || g.referenceCount == 0 then (Erased(memory, after, trees.deletion, EntryKey(g)), Success)
        else (after, Success)
  }

  predicate NoDuplicates(frames: seq<Frame>) {
    forall i, j :: 0 <= i < j < |frames| ==> frames[i] != frames[j]
  }

  /** A group's list has no repetition, fits its slots, and is no longer than its count. */
  predicate IsSound(g: EntryValue) {
    0 < |g.frames| <= SLOTS && |g.frames| <= g.referenceCount && NoDuplicates(g.frames) && g.head == g.frames[0]
  }

  ghost predicate AllSound(table: TableValue) {
    forall i :: 0 <= i < |table| ==> IsSound(table[i])
  }

  lemma ObservedIsSound(e: EntryValue, f: Frame)
    requires IsSound(e)
    ensures IsSound(Observed(e, f))
  {}

  /** Exactly one frame goes. */
  lemma {:induction false} WithoutMembers(frames: seq<Frame>, f: Frame)
    requires NoDuplicates(frames) && f in frames
    ensures |Without(frames, f)| == |frames| - 1 && NoDuplicates(Without(frames, f))
    ensures forall x :: x in Without(frames, f) <==> x in frames && x != f
  {
    assert forall x :: x in frames <==> x == frames[0] || x in frames[1..];
    if frames[0] != f {
      WithoutMembers(frames[1..], f);
      assert frames[0] !in frames[1..];
    } else {
      assert frames[0] !in frames[1..];
    }
  }

  lemma RemovedIsSound(g: EntryValue, f: Frame)
    requires IsSound(g) && f in g.frames
    ensures Removed(g, f).frames == [] ==> EntryKey(Removed(g, f)) == EntryKey(g)
    ensures Removed(g, f).frames != [] ==> IsSound(Removed(g, f))
    ensures |Removed(g, f).frames| == |g.frames| - 1
  {
    WithoutMembers(g.frames, f);
  }

  lemma PromotedIsSound(memory: FrameContents, groups: TableValue, tree: Shape, f: Frame, s: PageSignature,
                        inPool: bool)
    requires AllSound(groups)
    ensures AllSound(Promoted(memory, groups, tree, f, s, inPool).0)
  {
    hide Search, Observed, Matches, Inserted;
    var at := Search(memory, groups, tree, Key(s, f));
    if at.Found? {
      ObservedIsSound(groups[at.index], f);
    }
  }

  /** Whether a demotion takes the last frame of the group it finds. */
  predicate Empties(memory: FrameContents, groups: TableValue, trees: DemotionTrees, f: Frame, s: PageSignature) {
    match Search(memory, groups, trees.lookup, Key(s, 0))
    case Absent(_) => false
    case Found(k) => f in groups[k].frames && |groups[k].frames| == 1
  }

  /** Whether deleting the group that a demotion emptied finds that group again. */
  predicate DeletesEmptied(memory: FrameContents, groups: TableValue, trees: DemotionTrees, f: Frame, s: PageSignature)
  {
    match Search(memory, groups, trees.lookup, Key(s, 0))
    case Absent(_) => false
    case Found(k) =>
      Search(memory, groups[k := Removed(groups[k], f)], trees.deletion, EntryKey(groups[k])) == Found(k)
  }

  lemma DemotedIsSoundExactly(memory: FrameContents, groups: TableValue, trees: DemotionTrees, f: Frame,
                              s: PageSignature)
    requires AllSound(groups)
    ensures AllSound(Demoted(memory, groups, trees, f, s).0)
       <==> (Empties(memory, groups, trees, f, s) ==> DeletesEmptied(memory, groups, trees, f, s))
  {
    hide Search, Matches, Deleted, Without;
    var at := Search(memory, groups, trees.lookup, Key(s, 0));
    if at.Absent? || f !in groups[at.index].frames {
      return;
    }
    var k, g := at.index, Removed(groups[at.index], f);
    RemovedIsSound(groups[k], f);
    var after, found := groups[k := g], Search(memory, groups[k := g], trees.deletion, EntryKey(g));
    if g.frames == [] && found != Found(k) {
      var kept := Erased(memory, after, trees.deletion, EntryKey(g));
      assert kept[if found.Found? && found.index < k then k - 1 else k] == g;
    }
  }

  /** Promotion keeps every group sound, whatever the tree and whatever it finds.  Demotion does
      exactly when the deletion of a group that it emptied finds that group. */
  lemma GroupsStaySound(memory: FrameContents, groups: TableValue, tree: Shape, trees: DemotionTrees, f: Frame,
                        s: PageSignature, inPool: bool)
    requires AllSound(groups)
    ensures AllSound(Promoted(memory, groups, tree, f, s, inPool).0)
    ensures AllSound(Demoted(memory, groups, trees, f, s).0)
       <==> (Empties(memory, groups, trees, f, s) ==> DeletesEmptied(memory, groups, trees, f, s))
  {
    hide Promoted, Demoted, AllSound, Empties, DeletesEmptied;
    PromotedIsSound(memory, groups, tree, f, s, inPool);
    DemotedIsSoundExactly(memory, groups, trees, f, s);
  }

  /** A demotion that takes a frame out tries to delete the group exactly when that was its only
      frame or its last reference; otherwise it keeps the group with one reference less. */
  lemma DemotionDeletesExactly(memory: FrameContents, groups: TableValue, trees: DemotionTrees, f: Frame,
                               s: PageSignature, k: nat)
    requires Search(memory, groups, trees.lookup, Key(s, 0)) == Found(k) && f in groups[k].frames
    ensures var (after, status) := Demoted(memory, groups, trees, f, s);
            var left := groups[k := Removed(groups[k], f)];
            && status == Success && left[k].referenceCount == Predecessor(groups[k].referenceCount)
            && (groups[k].frames == [f] || groups[k].referenceCount <= 1 ==>
                  after == Erased(memory, left, trees.deletion, EntryKey(left[k])))
            && (groups[k].frames != [f] && groups[k].referenceCount > 1 ==> after == left)
  {
    hide Search, Matches, Erased;
    var frames := groups[k].frames;
    assert Without(frames, f) == [] <==> frames == [f];
  }

  function Predecessor(n: nat): nat {
    if n == 0 then 0 else n - 1
  }

  // ----- the copy-on-write registry -----

  function Registered(cow: set<Frame>, f: Frame, inPool: bool): (set<Frame>, Status) {
    if f in cow then (cow, Success)
    else if inPool then (cow + {f}, Success)
    else (cow, InsufficientResources)
  }

  function Unregistered(cow: set<Frame>, f: Frame): (set<Frame>, Status) {
    if f in cow then (cow - {f}, Success) else (cow, NotFound)
  }

  // ----- operations across tables -----

  datatype RegistryValue = RegistryValue(pages: TableValue, groups: TableValue, cow: set<Frame>)

  /** Whether the pool can serve an insertion into each table. */
  datatype Allocation = Allocation(page: bool, group: bool, cow: bool)

  /** The shape of each table's tree when an operation looks into it. */
  datatype Trees = Trees(pages: Shape, groups: Shape)

  function MarkedShared(memory: FrameContents, r: RegistryValue, tree: Shape, f: Frame, s: PageSignature,
                        pool: Allocation): (RegistryValue, Status)
  {
    var (groups, status) := Promoted(memory, r.groups, tree, f, s, pool.group);
    if status != Success then (r.(groups := groups), status)
    else
      var (cow, registered) := Registered(r.cow, f, pool.cow);
      (r.(groups := groups, cow := cow), registered)
  }

  function UnmarkedShared(memory: FrameContents, r: RegistryValue, trees: DemotionTrees, f: Frame,
                          s: PageSignature): (RegistryValue, Status)
  {
    var (groups, status) := Demoted(memory, r.groups, trees, f, s);
    if status != Success then (r.(groups := groups), status)
    else
      var (cow, unregistered) := Unregistered(r.cow, f);
      (r.(groups := groups, cow := cow), unregistered)
  }

  /** An entry that reaches two references is promoted once. */
  predicate Promotes(e: EntryValue, f: Frame) {
    Observed(e, f).referenceCount >= 2 && !e.shared
  }

  function Flagged(e: EntryValue, f: Frame): EntryValue {
    Observed(e, f).(shared := e.shared || Observed(e, f).referenceCount >= 2)
  }

  function AddedPage(memory: FrameContents, r: RegistryValue, trees: Trees, f: Frame, s: PageSignature,
                     pool: Allocation): (RegistryValue, Status)
  {
    match Search(memory, r.pages, trees.pages, Key(s, f))
    case Absent(k) =>
      if pool.page then (r.(pages := Inserted(r.pages, k, NewEntry(f, s))), Success) else (r, InsufficientResources)
    case Found(k) =>
      var e := r.pages[k];
      var after := r.(pages := r.pages[k := Flagged(e, f)]);
      if Promotes(e, f) then (MarkedShared(memory, after, trees.groups, e.head, e.signature, pool).0, Success)
      else (after, Success)
  }

  // ----- draining -----

  /** The shapes of the trees in a drain: the page table's at each deletion, by the number of
      entries that are left, and the group table's at each demotion, by that number and the
      number of the entry's frames that are left. */
  datatype DrainTrees = DrainTrees(pages: nat -> Shape, groups: (nat, nat) -> DemotionTrees)

  /** Unmarks the frames of one shared entry, in slot order. */
  function AllUnmarked(memory: FrameContents, r: RegistryValue, trees: DrainTrees, frames: seq<Frame>,
                       s: PageSignature): (after: RegistryValue)
    ensures after.pages == r.pages
    decreases |frames|
  {
    if frames == [] then r
    else
      var once := UnmarkedShared(memory, r, trees.groups(|r.pages|, |frames|), frames[0], s).0;
      AllUnmarked(memory, once, trees, frames[1..], s)
  }

  /** One round: the first entry is unmarked and then deleted by its key. */
  function AfterFirst(memory: FrameContents, r: RegistryValue, trees: DrainTrees): (rest: RegistryValue)
    requires r.pages != []
  {
    var e := r.pages[0];
    var unmarked := if e.shared then AllUnmarked(memory, r, trees, e.frames, e.signature) else r;
    unmarked.(pages := Erased(memory, r.pages, trees.pages(|r.pages|), EntryKey(e)))
  }

  /** Rounds are made until the page table is empty.  A round that deletes nothing would be
      repeated for ever; in a table in frame order there is none. */
  function Drained(memory: FrameContents, r: RegistryValue, trees: DrainTrees): (after: RegistryValue)
    decreases |r.pages|
  {
    if r.pages == [] then r
    else
      var rest := AfterFirst(memory, r, trees);
      if |rest.pages| < |r.pages| then Drained(memory, rest, trees) else rest
  }

  // ----- write faults -----

  datatype FaultAddress = Null | Unmapped | Mapped(frame: Frame)

  function FaultHandled(r: RegistryValue, address: FaultAddress, write: bool, copied: bool): (RegistryValue, Status) {
    match address
    case Null => (r, InvalidParameter)
    case Unmapped => (r, InvalidParameter)
    case Mapped(f) =>
      if f !in r.cow then (r, NotSupported)
      else if !write then (r, NotSupported)
      else if !copied then (r, NoPrivateCopy)
      else (r.(cow := Unregistered(r.cow, f).0), Success)
  }

  /** Which answer a fault gets: an address without a page is invalid, a page that is not protected
      or only read is not supported, and a failed copy is reported.  Only success changes the
      registry, and then by this page alone. */
  lemma FaultAnswers(r: RegistryValue, address: FaultAddress, write: bool, copied: bool)
    ensures var (after, status) := FaultHandled(r, address, write, copied);
            && (status == InvalidParameter <==> !address.Mapped?)
            && (address.Mapped? && (address.frame !in r.cow || !write) ==> status == NotSupported)
            && (address.Mapped? && address.frame in r.cow && write && !copied ==> status == NoPrivateCopy)
            && (status == Success ==> after == r.(cow := r.cow - {address.frame}))
            && (status != Success ==> after == r)
  {}

  /** The answers of the copy-on-write registry, and what a removal undoes. */
  lemma RegistrationAnswers(cow: set<Frame>, f: Frame, inPool: bool)
    ensures Registered(cow, f, inPool)
         == if f in cow || inPool then (cow + {f}, Success) else (cow, InsufficientResources)
    ensures Unregistered(cow, f) == if f in cow then (cow - {f}, Success) else (cow, NotFound)
    ensures f !in cow && inPool ==> Unregistered(Registered(cow, f, inPool).0, f) == (cow, Success)
  {
    if f in cow {
      assert cow + {f} == cow;
    }
  }

  /** A fault changes something exactly when a protected frame is written and a private copy
      can be made; the frame is then no longer protected, and a second fault on it is refused. */
  lemma FaultHandledOnce(r: RegistryValue, address: FaultAddress, write: bool, copied: bool)
    ensures var (after, status) := FaultHandled(r, address, write, copied);
            && (after != r <==> status == Success)
            && (status == Success <==> address.Mapped? && address.frame in r.cow && write && copied)
            && (status == Success ==>
                  after.pages == r.pages && after.groups == r.groups && r.cow - after.cow == {address.frame}
                  && forall w, c :: FaultHandled(after, address, w, c) == (after, NotSupported))
  {
    if address.Mapped? && address.frame in r.cow {
      assert address.frame !in r.cow - {address.frame};
    }
  }
}
