/** The driver's registry updated in place: 64-slot arrays, two tables and a set
    (`driver/deduper.cpp`).  Every method is tied to the values of `Registry`. */
module Driver {
  import opened Options
  import opened Pages
  import opened PageOrder
  import opened Registry
  import opened FrameOrder
  import opened RegistryRuns

  /** A page entry, or a shared group, with its fixed array of frame numbers. */
  class Entry {
    const signature: PageSignature
    const slots: array<Frame>
    var referenceCount: nat
    var frameCount: nat
    var shared: bool

    ghost predicate Valid()
      reads this
    {
      slots.Length == SLOTS && frameCount <= SLOTS
    }

    function Value(): (v: EntryValue)
      requires Valid()
      reads this, slots
      ensures |v.frames| == frameCount
    {
      EntryValue(signature, referenceCount, slots[..frameCount], shared, slots[0])
    }

    constructor (f: Frame, s: PageSignature)
      ensures Valid() && fresh(slots) && Value() == NewEntry(f, s)
    {
      signature := s;
      referenceCount := 1;
      frameCount := 1;
      shared := false;
      slots := new Frame[SLOTS](_ => 0);
      new;
      slots[0] := f;
    }

    /** The first slot holding a frame, or the number of frames. */
    method Position(f: Frame) returns (k: nat)
      requires Valid()
      ensures k <= frameCount && (k < frameCount <==> f in Value().frames)
      ensures k < frameCount ==> Without(Value().frames, f) == slots[..k] + slots[k + 1..frameCount]
    {
      for index := 0 to frameCount
        invariant forall j :: 0 <= j < index ==> slots[j] != f
      {
        if slots[index] == f {
          WithoutAt(slots[..frameCount], f, index);
          assert slots[..frameCount][..index] + slots[..frameCount][index + 1..]
              == slots[..index] + slots[index + 1..frameCount];
          assert slots[..frameCount][index] == f;
          return index;
        }
      }
      return frameCount;
    }

    /** Appends a frame that is not listed while there is room, and counts it. */
    method Observe(f: Frame)
      requires Valid()
      modifies this, slots
      ensures Valid() && Value() == Observed(old(Value()), f)
    {
      var k := Position(f);
      var alreadyPresent := k < frameCount;
      if !alreadyPresent {
        if frameCount < SLOTS {
          slots[frameCount] := f;
          frameCount := frameCount + 1;
        }
        referenceCount := referenceCount + 1;
      }
    }

    /** Closes the gap at k by shifting the later slots down. */
    method ShiftDown(k: nat)
      requires Valid() && k < frameCount
      modifies this`frameCount, slots
      ensures Valid() && Value() == old(Value().(frames := slots[..k] + slots[k + 1..frameCount],
                                                 head := if k == 0 && frameCount > 1 then slots[1] else slots[0]))
    {
      var move := k;
      while move + 1 < frameCount
        invariant k <= move < frameCount == old(frameCount)
        invariant forall j :: 0 <= j < k ==> slots[j] == old(slots[j])
        invariant forall j :: k <= j < move ==> slots[j] == old(slots[j + 1])
        invariant slots[0] == old(if k == 0 && move > 0 then slots[1] else slots[0])
        invariant forall j :: move < j < frameCount ==> slots[j] == old(slots[j])
      {
        slots[move] := slots[move + 1];
        move := move + 1;
      }
      frameCount := frameCount - 1;
      assert slots[..frameCount] == old(slots[..k] + slots[k + 1..frameCount]);
    }

    method Remove(f: Frame) returns (found: bool)
      requires Valid()
      modifies this, slots
      ensures Valid() && found == (f in old(Value()).frames)
      ensures Value() == if found then Removed(old(Value()), f) else old(Value())
    {
      hide Without;
      var k := Position(f);
      found := k < frameCount;
      if !found {
        return;
      }
      ShiftDown(k);
      ghost var left := Without(old(Value()).frames, f);
      assert Value() == old(Value()).(frames := left, head := if left == [] then old(slots[0]) else left[0]);
      if referenceCount > 0 {
        referenceCount := referenceCount - 1;
      }
    }
  }

  /** A generic table, in the order of its tree.  Each lookup is given the shape the tree has. */
  class Table {
    const memory: FrameContents
    var entries: seq<Entry>
    ghost var Repr: set<object>

    ghost predicate Valid()
      reads this, Repr
    {
      && this in Repr
      && (forall i :: 0 <= i < |entries| ==>
            entries[i] in Repr && entries[i].slots in Repr && entries[i].Valid())
      && (forall i, j :: 0 <= i < j < |entries| ==> entries[i] != entries[j] && entries[i].slots != entries[j].slots)
    }

    ghost function View(): (v: TableValue)
      requires Valid()
      reads this, Repr
      ensures |v| == |entries|
      ensures forall i :: 0 <= i < |entries| ==> v[i] == entries[i].Value()
    {
      seq(|entries|, i requires 0 <= i < |entries| && Valid() reads this, Repr => entries[i].Value())
    }

    constructor (memory: FrameContents)
      ensures Valid() && View() == [] && this.memory == memory && Repr == {this}
    {
      this.memory := memory;
      entries := [];
      Repr := {this};
    }

    /** The descent from the root, guided by the comparator. */
    method Lookup(tree: Shape, key: Key) returns (at: Place)
      requires Valid()
      ensures at == Search(memory, View(), tree, key)
    {
      hide Compare, Matches;
      var subtree, low := Fitted(tree, |entries|), 0;
      ghost var keys := KeysOf(View());
      while subtree.Node?
        invariant low + Size(subtree) <= |keys|
        invariant Search(memory, View(), tree, key) == Descend(memory, keys, subtree, low, key)
        decreases subtree
      {
        var middle := low + Size(subtree.left);
        var e := entries[middle];
        assert e.Value() == View()[middle];
        var order := Compare(memory, key, Key(e.signature, e.slots[0]));
        if order == 0 {
          return Found(middle);
        }
        if order < 0 {
          subtree := subtree.left;
        } else {
          subtree, low := subtree.right, middle + 1;
        }
      }
      at := Absent(low);
    }

    method Insert(k: nat, f: Frame, s: PageSignature)
      requires Valid() && k <= |entries|
      modifies this
      ensures Valid() && View() == Inserted(old(View()), k, NewEntry(f, s)) && fresh(Repr - old(Repr))
    {
      ghost var before := View();
      hide IsSound;
      var e := new Entry(f, s);
      entries := entries[..k] + [e] + entries[k..];
      Repr := Repr + {e, e.slots};
      assert Valid();
      assert View()[..k] == before[..k] && View()[k + 1..] == before[k..];
    }

    method ObserveAt(k: nat, f: Frame)
      requires Valid() && k < |entries|
      modifies entries[k], entries[k].slots
      ensures Valid() && View() == old(View())[k := Observed(old(View())[k], f)]
    {
      entries[k].Observe(f);
    }

    method FlagAt(k: nat)
      requires Valid() && k < |entries|
      modifies entries[k]
      ensures Valid() && View() == old(View())[k := old(View())[k].(shared := true)]
    {
      entries[k].shared := true;
    }

    method RemoveAt(k: nat, f: Frame) returns (found: bool)
      requires Valid() && k < |entries|
      modifies entries[k], entries[k].slots
      ensures Valid() && found == (f in old(View())[k].frames)
      ensures View() == if found then old(View())[k := Removed(old(View())[k], f)] else old(View())
    {
      found := entries[k].Remove(f);
    }

    method Delete(k: nat)
      requires Valid() && k < |entries|
      modifies this`entries
      ensures Valid() && View() == Deleted(old(View()), k)
    {
      ghost var before := View();
      entries := entries[..k] + entries[k + 1..];
      assert forall i :: 0 <= i < |entries| ==> entries[i] == old(entries)[if i < k then i else i + 1];
      assert Valid();
    }

    /** Deletion searches for the element again. */
    method DeleteElement(tree: Shape, key: Key)
      requires Valid()
      modifies this`entries
      ensures Valid() && View() == Erased(memory, old(View()), tree, key)
    {
      hide Search, Matches;
      var at := Lookup(tree, key);
      if at.Found? {
        Delete(at.index);
      }
    }

    /** On the table of shared groups. */
    method PromoteSharedPageGroup(tree: Shape, f: Frame, s: PageSignature, inPool: bool) returns (status: Status)
      requires Valid()
      modifies this, Repr
      ensures Valid() && fresh(Repr - old(Repr))
      ensures (View(), status) == Promoted(memory, old(View()), tree, f, s, inPool)
    {
      hide Search, Matches, Inserted, NewEntry, Observed;
      var at := Lookup(tree, Key(s, f));
      match at {
        case Absent(k) =>
          if !inPool {
            return InsufficientResources;
          }
          Insert(k, f, s);
        case Found(k) =>
          ObserveAt(k, f);
      }
      status := Success;
    }

    /** On the table of shared groups; the lookup key carries frame 0. */
    method DemoteSharedPageGroup(trees: DemotionTrees, f: Frame, s: PageSignature) returns (status: Status)
      requires Valid()
      modifies this`entries, Repr - {this}
      ensures Valid() && (View(), status) == Demoted(memory, old(View()), trees, f, s)
    {
      hide Removed, Search, Matches, Erased;
      var at := Lookup(trees.lookup, Key(s, 0));
      if at.Absent? {
        return NotFound;
      }
      var k := at.index;
      var group := entries[k];
      var found := RemoveAt(k, f);
      if !found {
        return NotFound;
      }
      assert group.Value() == View()[k] == Removed(old(View())[k], f);
      if group.frameCount == 0 || group.referenceCount == 0 {
        DeleteElement(trees.deletion, Key(group.signature, group.slots[0]));
      }
      status := Success;
    }

    /** The locked section of `AddPageEntry`, on the page table: inserts or observes a frame, and
        says whether the entry is to be promoted, and as what. */
    method AddOrObserve(tree: Shape, f: Frame, s: PageSignature, inPool: bool)
      returns (status: Status, promoteShared: bool, promotePfn: Frame, promoteSignature: PageSignature)
      requires Valid()
      modifies this, Repr
      ensures Valid() && fresh(Repr - old(Repr))
      ensures var pages := old(View());
              match Search(memory, pages, tree, Key(s, f))
              case Absent(k) =>
                && !promoteShared
                && (View(), status) == if inPool then (Inserted(pages, k, NewEntry(f, s)), Success)
                                       else (pages, InsufficientResources)
              case Found(k) =>
                && View() == pages[k := Flagged(pages[k], f)] && status == Success
                && promoteShared == Promotes(pages[k], f)
                && promotePfn == pages[k].head && promoteSignature == pages[k].signature
    {
      hide Search, Matches, Inserted, NewEntry;
      promoteShared, promotePfn, promoteSignature := false, f, s;
      var at := Lookup(tree, Key(s, f));
      var k := at.index;
      if at.Absent? {
        if !inPool {
          return InsufficientResources, promoteShared, promotePfn, promoteSignature;
        }
        Insert(k, f, s);
        return Success, promoteShared, promotePfn, promoteSignature;
      }
      assert entries[k].Value() == View()[k];
      promotePfn, promoteSignature := entries[k].slots[0], entries[k].signature;
      ObserveAt(k, f);
      assert entries[k].Value() == View()[k] == Observed(old(View())[k], f);
      if entries[k].referenceCount >= 2 && !entries[k].shared {
        promoteShared := true;
        FlagAt(k);
      }
      assert View()[k] == Flagged(old(View())[k], f);
      status := Success;
    }
  }

  /** The size of the reply to a health query, six 32-bit counters and a padded flag. */
  const HEALTH_BYTES: nat := 28

  /** What a health query reads elsewhere: the sizes of the process table and of the table of
      private copies, and the interception flag. */
  datatype Elsewhere = Elsewhere(processes: nat, privateCopies: nat, interceptionActive: bool)

  datatype Health = Health(
    optedInProcesses: nat,
    totalPageEntries: nat,
    duplicatePageEntries: nat,
    sharedPageGroups: nat,
    cowProtectedPages: nat,
    cowPrivateCopies: nat,
    cowInterceptionActive: bool)

  class DedupeDriver {
    const memory: FrameContents
    const pageTable: Table
    const groupTable: Table
    var cow: set<Frame>

    ghost predicate Valid()
      reads this, pageTable, pageTable.Repr, groupTable, groupTable.Repr
    {
      && this !in pageTable.Repr && this !in groupTable.Repr && pageTable.Repr !! groupTable.Repr
      && pageTable.memory == memory && groupTable.memory == memory
      && pageTable.Valid() && groupTable.Valid()
      && IsPageTable(pageTable.View())
    }

    ghost function Value(): RegistryValue
      requires Valid()
      reads this, pageTable, pageTable.Repr, groupTable, groupTable.Repr
    {
      RegistryValue(pageTable.View(), groupTable.View(), cow)
    }

    constructor (memory: FrameContents)
      ensures Valid() && Value() == EMPTY && this.memory == memory
    {
      this.memory := memory;
      pageTable := new Table(memory);
      groupTable := new Table(memory);
      cow := {};
    }

    method RegisterCowProtectedPage(f: Frame, inPool: bool) returns (status: Status)
      modifies this`cow
      ensures (cow, status) == Registered(old(cow), f, inPool)
      ensures status == if f in old(cow) || inPool then Success else InsufficientResources
    {
      if f !in cow {
        if !inPool {
          return InsufficientResources;
        }
        cow := cow + {f};
      }
      status := Success;
    }

    method UnregisterCowProtectedPage(f: Frame) returns (status: Status)
      modifies this`cow
      ensures (cow, status) == Unregistered(old(cow), f)
      ensures status == if f in old(cow) then Success else NotFound
    {
      if f !in cow {
        return NotFound;
      }
      cow := cow - {f};
      status := Success;
    }

    method MarkPageShared(tree: Shape, f: Frame, s: PageSignature, pool: Allocation) returns (status: Status)
      requires Valid()
      modifies this`cow, groupTable, groupTable.Repr
      ensures Valid() && fresh(groupTable.Repr - old(groupTable.Repr))
      ensures (Value(), status) == MarkedShared(memory, old(Value()), tree, f, s, pool)
    {
      hide Promoted, Registered, IsPageTable, Search;
      status := groupTable.PromoteSharedPageGroup(tree, f, s, pool.group);
      if status != Success {
        return;
      }
      status := RegisterCowProtectedPage(f, pool.cow);
    }

    method UnmarkPageShared(trees: DemotionTrees, f: Frame, s: PageSignature) returns (status: Status)
      requires Valid()
      modifies this`cow, groupTable, groupTable.Repr
      ensures Valid() && groupTable.Repr == old(groupTable.Repr)
      ensures (Value(), status) == UnmarkedShared(memory, old(Value()), trees, f, s)
    {
      hide Demoted, Unregistered, IsPageTable, Search;
      status := groupTable.DemoteSharedPageGroup(trees, f, s);
      if status != Success {
        return;
      }
      status := UnregisterCowProtectedPage(f);
    }

    method AddPageEntry(trees: Trees, f: Frame, s: PageSignature, pool: Allocation) returns (status: Status)
      requires Valid()
      modifies this`cow, pageTable, pageTable.Repr, groupTable, groupTable.Repr
      ensures Valid() && (Value(), status) == AddedPage(memory, old(Value()), trees, f, s, pool)
      ensures status == if pool.page || Search(memory, old(pageTable.View()), trees.pages, Key(s, f)).Found?
                        then Success else InsufficientResources
    {
      hide IsPageTable, Flagged, Promotes, MarkedShared, Search, Inserted, NewEntry, Observed;
      AddingKeepsPageTable(memory, pageTable.View(), trees.pages, f, s);
      var promoteShared, promotePfn, promoteSignature;
      status, promoteShared, promotePfn, promoteSignature := pageTable.AddOrObserve(trees.pages, f, s, pool.page);
      if promoteShared {
        var marked := MarkPageShared(trees.groups, promotePfn, promoteSignature, pool);
      }
    }

    method CowFaultCallback(address: FaultAddress, write: bool, copied: bool) returns (status: Status)
      requires Valid()
      modifies this`cow
      ensures Valid() && (Value(), status) == FaultHandled(old(Value()), address, write, copied)
      ensures status == if !address.Mapped? then InvalidParameter
                        else if address.frame !in old(cow) || !write then NotSupported
                        else if !copied then NoPrivateCopy
                        else Success
    {
      if !address.Mapped? {
        return InvalidParameter;
      }
      if address.frame !in cow {
        return NotSupported;
      }
      if !write {
        return NotSupported;
      }
      if !copied {
        return NoPrivateCopy;
      }
      var unregistered := UnregisterCowProtectedPage(address.frame);
      status := Success;
    }

    /** The query recounts the duplicates by walking the page table. */
    method QueryDedupeHealth(elsewhere: Elsewhere, outputBufferLength: nat)
      returns (status: Status, health: Option<Health>, information: nat)
      requires Valid()
      ensures outputBufferLength < 28 ==> (status, health, information) == (BufferTooSmall, None, 0)
      ensures outputBufferLength >= 28 ==>
                var r := Value();
                && status == Success && information == 28
                && health == Some(Health(elsewhere.processes, |r.pages|, DuplicateEntries(r.pages), |r.groups|,
                                         |r.cow|, elsewhere.privateCopies, elsewhere.interceptionActive))
    {
      if outputBufferLength < HEALTH_BYTES {
        return BufferTooSmall, None, 0;
      }
      var duplicates := 0;
      for index := 0 to |pageTable.entries|
        invariant duplicates == DuplicateEntries(pageTable.View()[..index])
      {
        assert pageTable.View()[..index + 1][..index] == pageTable.View()[..index];
        assert pageTable.entries[index].Value() == pageTable.View()[index];
        if pageTable.entries[index].referenceCount > 1 {
          duplicates := duplicates + 1;
        }
      }
      assert pageTable.View()[..|pageTable.entries|] == pageTable.View();
      health := Some(Health(elsewhere.processes, |pageTable.entries|, duplicates, |groupTable.entries|, |cow|,
                            elsewhere.privateCopies, elsewhere.interceptionActive));
      status, information := Success, HEALTH_BYTES;
    }

    /** Unmarks every frame of the first entry, in slot order. */
    method UnmarkFirstEntry(trees: DrainTrees)
      requires Valid() && pageTable.entries != []
      modifies this`cow, groupTable, groupTable.Repr
      ensures Valid() && groupTable.Repr == old(groupTable.Repr)
      ensures var before := old(Value());
              Value() == AllUnmarked(memory, before, trees, before.pages[0].frames, before.pages[0].signature)
    {
      hide UnmarkedShared, IsPageTable;
      var entry := pageTable.entries[0];
      ghost var before, e := Value(), entry.Value();
      assert e == before.pages[0];
      for index := 0 to entry.frameCount
        invariant Valid() && groupTable.Repr == old(groupTable.Repr)
        invariant Value().pages == before.pages && entry.Value() == e
        invariant AllUnmarked(memory, Value(), trees, e.frames[index..], e.signature)
               == AllUnmarked(memory, before, trees, e.frames, e.signature)
      {
        assert entry.slots[index] == e.frames[index];
        var shapes := trees.groups(|pageTable.entries|, entry.frameCount - index);
        var status := UnmarkPageShared(shapes, entry.slots[index], entry.signature);
        assert e.frames[index..][1..] == e.frames[index + 1..];
      }
    }

    /** One round of the drain: the first entry in the order of the tree is unmarked and deleted. */
    method DrainFirstEntry(trees: DrainTrees)
      requires Valid() && pageTable.entries != []
      modifies this`cow, pageTable`entries, groupTable, groupTable.Repr
      ensures Valid() && groupTable.Repr == old(groupTable.Repr)
      ensures Value() == AfterFirst(memory, old(Value()), trees)
      ensures |pageTable.entries| == old(|pageTable.entries|) - 1
    {
      hide IsPageTable, AllUnmarked, Search, Erased;
      ghost var before := Value();
      var entry := pageTable.entries[0];
      assert entry.Value() == before.pages[0];
      DeletionFindsEntry(memory, before.pages, trees.pages(|before.pages|), 0);
      if entry.shared {
        UnmarkFirstEntry(trees);
      }
      assert Value().pages == before.pages;
      assert entry.Value() == Value().pages[0];
      pageTable.DeleteElement(trees.pages(|pageTable.entries|), Key(entry.signature, entry.slots[0]));
    }

    /** The drain ends on any contents, for every round deletes an entry. */
    method DrainDedupeState(trees: DrainTrees)
      requires Valid()
      modifies this`cow, pageTable`entries, groupTable, groupTable.Repr
      ensures Valid() && Value() == Drained(memory, old(Value()), trees) && pageTable.entries == []
    {
      hide IsPageTable, AfterFirst;
      while |pageTable.entries| > 0
        invariant Valid() && groupTable.Repr == old(groupTable.Repr)
        invariant Drained(memory, Value(), trees) == Drained(memory, old(Value()), trees)
        decreases |pageTable.entries|
      {
        DrainFirstEntry(trees);
      }
    }
  }
}
