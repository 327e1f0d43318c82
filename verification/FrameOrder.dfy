/** What the page table keeps whatever its contents: its order by signature and frame number.
    Deletions rely on it, and so does the end of a drain (`driver/deduper.cpp`). */
module FrameOrder {
  import opened Pages
  import opened PageOrder
  import opened Registry

  /** Every entry lists a frame, and entries are in order of signature and frame number. */
  ghost predicate IsPageTable(pages: TableValue) {
    (forall i :: 0 <= i < |pages| ==> pages[i].frames != []) && InFrameOrder(KeysOf(pages))
  }

  lemma InsertedIsPageTable(pages: TableValue, k: nat, e: EntryValue)
    requires IsPageTable(pages) && e.frames != [] && k <= |pages|
    requires Splits(KeysOf(pages), 0, |pages|, EntryKey(e), k)
    ensures IsPageTable(Inserted(pages, k, e))
  {
    hide Before, EntryKey, Inserted;
    var after := Inserted(pages, k, e);
    assert forall i :: 0 <= i < |after| && i != k ==> after[i] == pages[if i < k then i else i - 1];
    var before, keys := KeysOf(pages), KeysOf(after);
    assert forall i :: 0 <= i < |keys| && i != k ==> keys[i] == before[if i < k then i else i - 1];
  }

  lemma UpdatedIsPageTable(pages: TableValue, k: nat, e: EntryValue)
    requires IsPageTable(pages) && k < |pages| && e.frames != [] && EntryKey(e) == EntryKey(pages[k])
    ensures IsPageTable(pages[k := e])
  {
    hide EntryKey, InFrameOrder;
    assert KeysOf(pages[k := e]) == KeysOf(pages);
  }

  lemma DeletedIsPageTable(pages: TableValue, k: nat)
    requires IsPageTable(pages) && k < |pages|
    ensures IsPageTable(Deleted(pages, k))
  {
    hide Before, EntryKey, Deleted;
    var after := Deleted(pages, k);
    assert forall i :: 0 <= i < |after| ==> after[i] == pages[if i < k then i else i + 1];
    var before, keys := KeysOf(pages), KeysOf(after);
    assert forall i :: 0 <= i < |keys| ==> keys[i] == before[if i < k then i else i + 1];
  }

  lemma SearchSplits(memory: FrameContents, pages: TableValue, tree: Shape, key: Key)
    requires IsPageTable(pages)
    ensures var at := Search(memory, pages, tree, key);
            at.Absent? ==> Splits(KeysOf(pages), 0, |pages|, key, at.index)
  {
    hide Descend, InFrameOrder, Splits;
    DescentKeepsFrameOrder(memory, KeysOf(pages), Fitted(tree, |pages|), 0, key);
  }

  lemma FlaggedKeepsKey(e: EntryValue, f: Frame)
    requires e.frames != []
    ensures Flagged(e, f).frames != [] && EntryKey(Flagged(e, f)) == EntryKey(e)
  {}

  /** An addition keeps it, wherever its lookup ends. */
  lemma AddingKeepsPageTable(memory: FrameContents, pages: TableValue, tree: Shape, f: Frame, s: PageSignature)
    requires IsPageTable(pages)
    ensures match Search(memory, pages, tree, Key(s, f))
            case Absent(k) => IsPageTable(Inserted(pages, k, NewEntry(f, s)))
            case Found(k) => IsPageTable(pages[k := Flagged(pages[k], f)])
  {
    hide Search, InFrameOrder, Matches, Inserted, Flagged, Splits, EntryKey;
    SearchSplits(memory, pages, tree, Key(s, f));
    match Search(memory, pages, tree, Key(s, f))
    case Absent(k) =>
      NewEntryKey(f, s);
      InsertedIsPageTable(pages, k, NewEntry(f, s));
    case Found(k) =>
      FlaggedKeepsKey(pages[k], f);
      UpdatedIsPageTable(pages, k, Flagged(pages[k], f));
  }

  lemma NewEntryKey(f: Frame, s: PageSignature)
    ensures EntryKey(NewEntry(f, s)) == Key(s, f)
  {}

  /** Deleting an entry by its key deletes one, of the same signature and content. */
  lemma DeletionFindsEntry(memory: FrameContents, pages: TableValue, tree: Shape, k: nat)
    requires IsPageTable(pages) && k < |pages|
    ensures var at := Search(memory, pages, tree, EntryKey(pages[k]));
            && at.Found?
            && pages[at.index].signature == pages[k].signature
            && memory(pages[at.index].head) == memory(pages[k].head)
            && Erased(memory, pages, tree, EntryKey(pages[k])) == Deleted(pages, at.index)
    ensures IsPageTable(Erased(memory, pages, tree, EntryKey(pages[k])))
  {
    KeyThereIsFound(memory, KeysOf(pages), Fitted(tree, |pages|), k);
    hide Descend, InFrameOrder, Matches, Deleted;
    var at := Search(memory, pages, tree, EntryKey(pages[k]));
    MatchesExactly(memory, EntryKey(pages[k]), pages[at.index]);
    DeletedIsPageTable(pages, at.index);
  }

  /** As numbers the hashes of a page table never decrease, and equal hashes have fingerprints that
      never decrease. */
  lemma HashesAscend(pages: TableValue, i: nat, j: nat)
    requires IsPageTable(pages) && i < j < |pages|
    ensures pages[i].signature.hash as nat <= pages[j].signature.hash as nat
    ensures pages[i].signature.hash == pages[j].signature.hash ==>
              pages[i].signature.fingerprint as nat <= pages[j].signature.fingerprint as nat
    ensures pages[i].signature == pages[j].signature ==> pages[i].head < pages[j].head
  {
    var keys := KeysOf(pages);
    assert Before(keys[i], keys[j]);
    BeforeAsNumbers(keys[i], keys[j]);
    hide Before, InFrameOrder;
  }

  lemma BeforeAsNumbers(a: Key, b: Key)
    requires Before(a, b)
    ensures a.signature.hash as nat <= b.signature.hash as nat
    ensures a.signature.hash == b.signature.hash ==>
              a.signature.fingerprint as nat <= b.signature.fingerprint as nat
    ensures a.signature == b.signature ==> a.frame < b.frame
  {}

  /** A drain whose entries are all unshared leaves groups and registrations alone. */
  lemma {:induction false} UnsharedEntriesUnmarkNothing(memory: FrameContents, r: RegistryValue, trees: DrainTrees)
    requires forall i :: 0 <= i < |r.pages| ==> !r.pages[i].shared
    ensures Drained(memory, r, trees).groups == r.groups && Drained(memory, r, trees).cow == r.cow
    decreases |r.pages|
  {
    hide Search, AllUnmarked, Deleted;
    if r.pages != [] {
      var rest := AfterFirst(memory, r, trees);
      if |rest.pages| < |r.pages| {
        UnsharedEntriesUnmarkNothing(memory, rest, trees);
      }
    }
  }

  /** So a drain ends, with an empty page table, contiguous contents or not. */
  lemma {:induction false} DrainEnds(memory: FrameContents, r: RegistryValue, trees: DrainTrees)
    requires IsPageTable(r.pages)
    ensures Drained(memory, r, trees).pages == []
    decreases |r.pages|
  {
    hide IsPageTable, Search, AllUnmarked, Erased;
    if r.pages != [] {
      DeletionFindsEntry(memory, r.pages, trees.pages(|r.pages|), 0);
      DrainEnds(memory, AfterFirst(memory, r, trees), trees);
    }
  }
}
