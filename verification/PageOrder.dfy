/** The order of the driver's tables: by signature, and among pages that differ although
    their signatures agree, by frame number (`ComparePageEntries`). */
module PageOrder {
  import opened Pages

  type Frame = nat

  /** Physical memory: the words of each frame. */
  type FrameContents = Frame -> seq<bv64>

  /** A signature function on the words of a page. */
  type SignWords = seq<bv64> -> PageSignature

  datatype Key = Key(signature: PageSignature, frame: Frame)

  predicate ArePhysicalPagesIdentical(memory: FrameContents, left: Frame, right: Frame) {
    left == right || memory(left) == memory(right)
  }

  /** Unsigned comparison of machine words. */
  predicate Below64(x: bv64, y: bv64) {
    Unsigned64(x) < Unsigned64(y)
  }

  predicate Below32(x: bv32, y: bv32) {
    Unsigned32(x) < Unsigned32(y)
  }

  function Unsigned64(x: bv64): nat {
    x as nat
  }

  function Unsigned32(x: bv32): nat {
    x as nat
  }

  function Compare(memory: FrameContents, left: Key, right: Key): int {
    if Below64(left.signature.hash, right.signature.hash) then -1
    else if Below64(right.signature.hash, left.signature.hash) then 1
    else if Below32(left.signature.fingerprint, right.signature.fingerprint) then -1
    else if Below32(right.signature.fingerprint, left.signature.fingerprint) then 1
    else if ArePhysicalPagesIdentical(memory, left.frame, right.frame) then 0
    else if left.frame < right.frame then -1
    else 1
  }

  // ----- signatures are totally ordered -----

  lemma WordIsItsValue64(x: bv64)
    ensures Unsigned64(x) < 0x1_0000_0000_0000_0000 && Unsigned64(x) as bv64 == x
  {}

  lemma WordIsItsValue32(x: bv32)
    ensures Unsigned32(x) < 0x1_0000_0000 && Unsigned32(x) as bv32 == x
  {}

  lemma Total64(x: bv64, y: bv64)
    ensures x == y || Below64(x, y) || Below64(y, x)
  {
    WordIsItsValue64(x);
    WordIsItsValue64(y);
    hide Unsigned64;
  }

  lemma Total32(x: bv32, y: bv32)
    ensures x == y || Below32(x, y) || Below32(y, x)
  {
    WordIsItsValue32(x);
    WordIsItsValue32(y);
    hide Unsigned32;
  }

  predicate SignatureBefore(a: PageSignature, b: PageSignature) {
    Below64(a.hash, b.hash) || (a.hash == b.hash && Below32(a.fingerprint, b.fingerprint))
  }

  lemma SignatureTotal(a: PageSignature, b: PageSignature)
    ensures a == b || SignatureBefore(a, b) || SignatureBefore(b, a)
    ensures !(SignatureBefore(a, b) && SignatureBefore(b, a))
  {
    hide Unsigned64, Unsigned32;
    Total64(a.hash, b.hash);
    Total32(a.fingerprint, b.fingerprint);
  }

  lemma SignatureTransitive(a: PageSignature, b: PageSignature, c: PageSignature)
    ensures SignatureBefore(a, b) && SignatureBefore(b, c) ==> SignatureBefore(a, c)
  {
    hide Unsigned64, Unsigned32;
  }

  lemma CompareBySignatureThenFrame(memory: FrameContents, a: Key, b: Key)
    ensures Compare(memory, a, b)
         == if a.signature != b.signature then (if SignatureBefore(a.signature, b.signature) then -1 else 1)
            else if ArePhysicalPagesIdentical(memory, a.frame, b.frame) then 0
            else if a.frame < b.frame then -1 else 1
    ensures Compare(memory, b, a) == -Compare(memory, a, b)
  {
    hide Unsigned64, Unsigned32;
    Total64(a.signature.hash, b.signature.hash);
    Total32(a.signature.fingerprint, b.signature.fingerprint);
  }

  /** The comparator puts the smaller hash first, as a number. */
  lemma CompareByHash(memory: FrameContents, left: Key, right: Key)
    ensures left.signature.hash as nat < right.signature.hash as nat ==> Compare(memory, left, right) == -1
    ensures left.signature.hash as nat > right.signature.hash as nat ==> Compare(memory, left, right) == 1
  {
    hide Unsigned32, Below32, ArePhysicalPagesIdentical;
  }

  /** With equal hashes, the smaller fingerprint. */
  lemma CompareByFingerprint(memory: FrameContents, left: Key, right: Key)
    requires left.signature.hash == right.signature.hash
    ensures left.signature.fingerprint as nat < right.signature.fingerprint as nat ==>
              Compare(memory, left, right) == -1
    ensures left.signature.fingerprint as nat > right.signature.fingerprint as nat ==>
              Compare(memory, left, right) == 1
  {
    hide Unsigned64, ArePhysicalPagesIdentical;
  }

  /** With equal signatures, the smaller frame number, unless the pages are the same. */
  lemma CompareByFrame(memory: FrameContents, left: Key, right: Key)
    requires left.signature == right.signature
    ensures Compare(memory, left, right)
         == if left.frame == right.frame || memory(left.frame) == memory(right.frame) then 0
            else if left.frame < right.frame then -1 else 1
  {
    hide Unsigned64, Unsigned32;
  }

  // ----- strict weak order -----

  function KeyOf(memory: FrameContents, sig: SignWords, f: Frame): Key {
    Key(sig(memory(f)), f)
  }

  predicate Less(memory: FrameContents, a: Key, b: Key) {
    Compare(memory, a, b) < 0
  }

  predicate Equivalent(memory: FrameContents, a: Key, b: Key) {
    !Less(memory, a, b) && !Less(memory, b, a)
  }

  /** Transitive, and so is being incomparable; irreflexivity is part of it. */
  ghost predicate IsStrictWeakOrder(memory: FrameContents, keys: iset<Key>) {
    && (forall a :: a in keys ==> !Less(memory, a, a))
    && (forall a, b, c :: a in keys && b in keys && c in keys ==>
          (Less(memory, a, b) && Less(memory, b, c) ==> Less(memory, a, c)))
    && (forall a, b, c :: a in keys && b in keys && c in keys ==>
          (Equivalent(memory, a, b) && Equivalent(memory, b, c) ==> Equivalent(memory, a, c)))
  }

  ghost function Keys(memory: FrameContents, sig: SignWords, frames: iset<Frame>): iset<Key> {
    iset f | f in frames :: KeyOf(memory, sig, f)
  }

  /** Within one signature, frames of equal content are contiguous in frame-number order. */
  ghost predicate Contiguous(memory: FrameContents, sig: SignWords, frames: iset<Frame>) {
    forall f, g, h :: f in frames && g in frames && h in frames && f < g < h ==>
      sig(memory(f)) == sig(memory(g)) && memory(f) == memory(h) ==> memory(g) == memory(f)
  }

  lemma EquivalentIsIdentical(memory: FrameContents, sig: SignWords, f: Frame, g: Frame)
    ensures Equivalent(memory, KeyOf(memory, sig, f), KeyOf(memory, sig, g)) <==> memory(f) == memory(g)
    ensures Compare(memory, KeyOf(memory, sig, f), KeyOf(memory, sig, g)) == 0 <==> memory(f) == memory(g)
  {
    CompareBySignatureThenFrame(memory, KeyOf(memory, sig, f), KeyOf(memory, sig, g));
    hide Compare;
  }

  lemma LessMeans(memory: FrameContents, sig: SignWords, f: Frame, g: Frame)
    ensures Less(memory, KeyOf(memory, sig, f), KeyOf(memory, sig, g))
       <==> if sig(memory(f)) != sig(memory(g)) then SignatureBefore(sig(memory(f)), sig(memory(g)))
            else memory(f) != memory(g) && f < g
  {
    CompareBySignatureThenFrame(memory, KeyOf(memory, sig, f), KeyOf(memory, sig, g));
    hide Compare, SignatureBefore;
  }

  lemma LessTransitive(memory: FrameContents, sig: SignWords, frames: iset<Frame>, f: Frame,
                       g: Frame, h: Frame)
    requires Contiguous(memory, sig, frames) && f in frames && g in frames && h in frames
    requires Less(memory, KeyOf(memory, sig, f), KeyOf(memory, sig, g))
    requires Less(memory, KeyOf(memory, sig, g), KeyOf(memory, sig, h))
    ensures Less(memory, KeyOf(memory, sig, f), KeyOf(memory, sig, h))
  {
    LessMeans(memory, sig, f, g);
    LessMeans(memory, sig, g, h);
    LessMeans(memory, sig, f, h);
    SignatureTransitive(sig(memory(f)), sig(memory(g)), sig(memory(h)));
    SignatureTotal(sig(memory(f)), sig(memory(g)));
    hide Less, SignatureBefore, KeyOf;
  }

  /** The comparator orders a set of tracked frames exactly when contents are contiguous. */
  lemma StrictWeakOrderExactlyWhenContiguous(memory: FrameContents, sig: SignWords,
                                             frames: iset<Frame>)
    ensures IsStrictWeakOrder(memory, Keys(memory, sig, frames)) <==> Contiguous(memory, sig, frames)
  {
    hide Less, Equivalent;
    if Contiguous(memory, sig, frames) {
      forall a, b, c | a in Keys(memory, sig, frames) && b in Keys(memory, sig, frames)
        && c in Keys(memory, sig, frames)
        ensures !Less(memory, a, a)
        ensures Less(memory, a, b) && Less(memory, b, c) ==> Less(memory, a, c)
        ensures Equivalent(memory, a, b) && Equivalent(memory, b, c) ==> Equivalent(memory, a, c)
      {
        LessMeans(memory, sig, a.frame, a.frame);
        SignatureTotal(a.signature, a.signature);
        if Less(memory, a, b) && Less(memory, b, c) {
          LessTransitive(memory, sig, frames, a.frame, b.frame, c.frame);
        }
        EquivalentIsIdentical(memory, sig, a.frame, b.frame);
        EquivalentIsIdentical(memory, sig, b.frame, c.frame);
        EquivalentIsIdentical(memory, sig, a.frame, c.frame);
      }
    } else {
      var f, g, h :| f in frames && g in frames && h in frames && f < g < h
        && sig(memory(f)) == sig(memory(g)) && memory(f) == memory(h) && memory(g) != memory(f);
      LessMeans(memory, sig, f, g);
      LessMeans(memory, sig, g, h);
      LessMeans(memory, sig, f, h);
      assert KeyOf(memory, sig, f) in Keys(memory, sig, frames);
      assert KeyOf(memory, sig, g) in Keys(memory, sig, frames);
      assert KeyOf(memory, sig, h) in Keys(memory, sig, frames);
    }
  }

  /** In particular when equal signatures imply equal contents. */
  lemma FaithfulSignaturesOrderStrictly(memory: FrameContents, sig: SignWords, frames: iset<Frame>)
    requires forall f, g :: f in frames && g in frames && sig(memory(f)) == sig(memory(g)) ==> memory(f) == memory(g)
    ensures Contiguous(memory, sig, frames) && IsStrictWeakOrder(memory, Keys(memory, sig, frames))
  {
    StrictWeakOrderExactlyWhenContiguous(memory, sig, frames);
  }

  /** A frame lies on the same side of any entry as a frame with the same content. */
  lemma SideOfTwin(memory: FrameContents, sig: SignWords, frames: iset<Frame>, f: Frame, x: Frame, g: Frame)
    requires Contiguous(memory, sig, frames) && f in frames && x in frames && g in frames && memory(x) == memory(f)
    ensures Less(memory, KeyOf(memory, sig, x), KeyOf(memory, sig, g))
       <==> Less(memory, KeyOf(memory, sig, f), KeyOf(memory, sig, g))
    ensures Less(memory, KeyOf(memory, sig, g), KeyOf(memory, sig, x))
       <==> Less(memory, KeyOf(memory, sig, g), KeyOf(memory, sig, f))
  {
    LessMeans(memory, sig, x, g);
    LessMeans(memory, sig, f, g);
    LessMeans(memory, sig, g, x);
    LessMeans(memory, sig, g, f);
    hide Less, SignatureBefore;
  }

  // ----- searching a tree kept in that order -----

  /** The shape of a binary search tree.  Its nodes, from left to right, hold the keys of a table. */
  datatype Shape = Leaf | Node(left: Shape, right: Shape)

  function Size(t: Shape): nat {
    match t
    case Leaf => 0
    case Node(l, r) => Size(l) + 1 + Size(r)
  }

  function Spine(n: nat): (t: Shape)
    ensures Size(t) == n
  {
    if n == 0 then Leaf else Node(Leaf, Spine(n - 1))
  }

  /** The shape itself when it has n nodes, and otherwise one that does. */
  function Fitted(t: Shape, n: nat): (r: Shape)
    ensures Size(r) == n
  {
    if Size(t) == n then t else Spine(n)
  }

  /** Where a search ends: at an equal key, or where a new key goes. */
  datatype Place = Found(index: nat) | Absent(index: nat)

  /** The descent of a lookup, guided by the comparator alone, in a tree that holds the keys from
      `low` on. */
  function Descend(memory: FrameContents, keys: seq<Key>, t: Shape, low: nat, key: Key): (at: Place)
    requires low + Size(t) <= |keys|
    ensures at.Found? ==> low <= at.index < low + Size(t) && Compare(memory, key, keys[at.index]) == 0
    ensures at.Absent? ==> low <= at.index <= low + Size(t)
  {
    match t
    case Leaf => Absent(low)
    case Node(l, r) =>
      var middle := low + Size(l);
      var order := Compare(memory, key, keys[middle]);
      if order == 0 then Found(middle)
      else if order < 0 then Descend(memory, keys, l, low, key)
      else Descend(memory, keys, r, middle + 1, key)
  }

  /** The keys are those of tracked frames. */
  ghost predicate AreTracked(memory: FrameContents, sig: SignWords, frames: iset<Frame>, keys: seq<Key>) {
    forall i :: 0 <= i < |keys| ==> keys[i].frame in frames && keys[i] == KeyOf(memory, sig, keys[i].frame)
  }

  ghost predicate IsSorted(memory: FrameContents, keys: seq<Key>) {
    forall i, j :: 0 <= i < j < |keys| ==> Less(memory, keys[i], keys[j])
  }

  ghost predicate HoldsContent(memory: FrameContents, keys: seq<Key>, f: Frame) {
    exists i :: 0 <= i < |keys| && memory(keys[i].frame) == memory(f)
  }

  /** The key goes between those from low on that are less and those up to high that are greater. */
  ghost predicate GoesAt(memory: FrameContents, keys: seq<Key>, low: nat, high: nat, key: Key, k: nat)
    requires low <= k <= high <= |keys|
  {
    && (forall i :: low <= i < k ==> Less(memory, keys[i], key))
    && (forall j :: k <= j < high ==> Less(memory, key, keys[j]))
  }

  lemma GoesLeft(memory: FrameContents, sig: SignWords, frames: iset<Frame>, keys: seq<Key>, low: nat, middle: nat,
                 high: nat, f: Frame, k: nat)
    requires Contiguous(memory, sig, frames) && AreTracked(memory, sig, frames, keys) && f in frames
    requires IsSorted(memory, keys) && low <= k <= middle < high <= |keys|
    requires Less(memory, KeyOf(memory, sig, f), keys[middle])
    requires GoesAt(memory, keys, low, middle, KeyOf(memory, sig, f), k)
    ensures GoesAt(memory, keys, low, high, KeyOf(memory, sig, f), k)
  {
    hide Less, Contiguous;
    forall j | middle < j < high
      ensures Less(memory, KeyOf(memory, sig, f), keys[j])
    {
      LessTransitive(memory, sig, frames, f, keys[middle].frame, keys[j].frame);
    }
  }

  lemma GoesRight(memory: FrameContents, sig: SignWords, frames: iset<Frame>, keys: seq<Key>, low: nat, middle: nat,
                  high: nat, f: Frame, k: nat)
    requires Contiguous(memory, sig, frames) && AreTracked(memory, sig, frames, keys) && f in frames
    requires IsSorted(memory, keys) && low <= middle < k <= high <= |keys|
    requires Less(memory, keys[middle], KeyOf(memory, sig, f))
    requires GoesAt(memory, keys, middle + 1, high, KeyOf(memory, sig, f), k)
    ensures GoesAt(memory, keys, low, high, KeyOf(memory, sig, f), k)
  {
    hide Less, Contiguous;
    forall i | low <= i < middle
      ensures Less(memory, keys[i], KeyOf(memory, sig, f))
    {
      LessTransitive(memory, sig, frames, keys[i].frame, keys[middle].frame, f);
    }
  }

  lemma DescendMeans(memory: FrameContents, keys: seq<Key>, l: Shape, r: Shape, low: nat, key: Key)
    requires low + Size(Node(l, r)) <= |keys|
    ensures Descend(memory, keys, Node(l, r), low, key)
         == var middle := low + Size(l);
            if Less(memory, key, keys[middle]) then Descend(memory, keys, l, low, key)
            else if Less(memory, keys[middle], key) then Descend(memory, keys, r, middle + 1, key)
            else Found(middle)
  {
    hide Compare, SignatureBefore, ArePhysicalPagesIdentical;
    CompareBySignatureThenFrame(memory, key, keys[low + Size(l)]);
  }

  /** A descent that finds nothing ends where the key goes. */
  lemma {:induction false} DescentEndsInPlace(memory: FrameContents, sig: SignWords, frames: iset<Frame>,
                                              keys: seq<Key>, t: Shape, low: nat, f: Frame)
    requires Contiguous(memory, sig, frames) && AreTracked(memory, sig, frames, keys) && f in frames
    requires IsSorted(memory, keys) && low + Size(t) <= |keys|
    ensures var at := Descend(memory, keys, t, low, KeyOf(memory, sig, f));
            at.Absent? ==> GoesAt(memory, keys, low, low + Size(t), KeyOf(memory, sig, f), at.index)
  {
    hide Less, Compare, Contiguous, KeyOf, AreTracked, IsSorted;
    if t == Leaf {
      return;
    }
    var l, r := t.left, t.right;
    var middle, high, key := low + Size(l), low + Size(t), KeyOf(memory, sig, f);
    var at := Descend(memory, keys, t, low, key);
    assert high == middle + 1 + Size(r);
    DescendMeans(memory, keys, l, r, low, key);
    hide Descend, Size, GoesAt;
    if at.Absent? {
      if Less(memory, key, keys[middle]) {
        DescentEndsInPlace(memory, sig, frames, keys, l, low, f);
        GoesLeft(memory, sig, frames, keys, low, middle, high, f, at.index);
      } else {
        DescentEndsInPlace(memory, sig, frames, keys, r, middle + 1, f);
        GoesRight(memory, sig, frames, keys, low, middle, high, f, at.index);
      }
    }
  }

  lemma LessDiffers(memory: FrameContents, sig: SignWords, f: Frame, g: Frame)
    requires Less(memory, KeyOf(memory, sig, f), KeyOf(memory, sig, g))
    ensures memory(f) != memory(g)
  {
    LessMeans(memory, sig, f, g);
    SignatureTotal(sig(memory(f)), sig(memory(f)));
    hide Less, SignatureBefore;
  }

  lemma DescentFinds(memory: FrameContents, sig: SignWords, frames: iset<Frame>, keys: seq<Key>, t: Shape, f: Frame)
    requires Contiguous(memory, sig, frames) && AreTracked(memory, sig, frames, keys) && f in frames
    requires IsSorted(memory, keys) && Size(t) == |keys|
    ensures Descend(memory, keys, t, 0, KeyOf(memory, sig, f)).Found? <==> HoldsContent(memory, keys, f)
  {
    var at := Descend(memory, keys, t, 0, KeyOf(memory, sig, f));
    hide Descend, Less, Compare, KeyOf, Contiguous, IsSorted;
    if at.Found? {
      EquivalentIsIdentical(memory, sig, f, keys[at.index].frame);
    } else {
      DescentEndsInPlace(memory, sig, frames, keys, t, 0, f);
      forall i | 0 <= i < |keys|
        ensures memory(keys[i].frame) != memory(f)
      {
        if i < at.index {
          LessDiffers(memory, sig, keys[i].frame, f);
        } else {
          LessDiffers(memory, sig, f, keys[i].frame);
        }
      }
    }
  }

  lemma HiddenPage(memory: FrameContents, sig: SignWords, f: Frame, g: Frame, h: Frame)
    requires f < g < h && sig(memory(f)) == sig(memory(g)) && memory(f) == memory(h) && memory(g) != memory(f)
    ensures var keys := [KeyOf(memory, sig, f), KeyOf(memory, sig, g)];
            && IsSorted(memory, keys) && HoldsContent(memory, keys, h)
            && Descend(memory, keys, Node(Node(Leaf, Leaf), Leaf), 0, KeyOf(memory, sig, h)) == Absent(2)
  {
    LessMeans(memory, sig, f, g);
    CompareBySignatureThenFrame(memory, KeyOf(memory, sig, h), KeyOf(memory, sig, g));
    hide Less, Compare;
    var keys := [KeyOf(memory, sig, f), KeyOf(memory, sig, g)];
    assert memory(keys[0].frame) == memory(h);
    assert Size(Node(Leaf, Leaf)) == 1;
  }

  lemma TwoAreTracked(memory: FrameContents, sig: SignWords, frames: iset<Frame>, f: Frame, g: Frame)
    requires f in frames && g in frames
    ensures AreTracked(memory, sig, frames, [KeyOf(memory, sig, f), KeyOf(memory, sig, g)])
    ensures Size(Node(Node(Leaf, Leaf), Leaf)) == 2
  {
    assert Size(Node(Leaf, Leaf)) == 1;
  }

  /** Every lookup in every ordered tree finds a page with the same content whenever there is one
      exactly when contents are contiguous: otherwise some ordered tree hides such a page. */
  lemma LookupCompleteExactlyWhenContiguous(memory: FrameContents, sig: SignWords, frames: iset<Frame>)
    ensures (forall keys, t, f | AreTracked(memory, sig, frames, keys) && IsSorted(memory, keys)
               && Size(t) == |keys| && f in frames ::
               (Descend(memory, keys, t, 0, KeyOf(memory, sig, f)).Found? <==> HoldsContent(memory, keys, f)))
       <==> Contiguous(memory, sig, frames)
  {
    hide IsSorted, Descend, AreTracked, HoldsContent, Size, KeyOf;
    if Contiguous(memory, sig, frames) {
      forall keys, t, f | AreTracked(memory, sig, frames, keys) && IsSorted(memory, keys) && Size(t) == |keys|
        && f in frames
        ensures Descend(memory, keys, t, 0, KeyOf(memory, sig, f)).Found? <==> HoldsContent(memory, keys, f)
      {
        DescentFinds(memory, sig, frames, keys, t, f);
      }
    } else {
      var f, g, h :| f in frames && g in frames && h in frames && f < g < h
        && sig(memory(f)) == sig(memory(g)) && memory(f) == memory(h) && memory(g) != memory(f);
      var keys, t := [KeyOf(memory, sig, f), KeyOf(memory, sig, g)], Node(Node(Leaf, Leaf), Leaf);
      HiddenPage(memory, sig, f, g, h);
      TwoAreTracked(memory, sig, frames, f, g);
      assert !Descend(memory, keys, t, 0, KeyOf(memory, sig, h)).Found?;
    }
  }

  // ----- an order that does not depend on contents -----

  /** By signature and then by frame number. */
  predicate Before(a: Key, b: Key) {
    SignatureBefore(a.signature, b.signature) || (a.signature == b.signature && a.frame < b.frame)
  }

  lemma BeforeIsStrictOrder(a: Key, b: Key, c: Key)
    ensures !Before(a, a)
    ensures Before(a, b) && Before(b, c) ==> Before(a, c)
  {
    SignatureTotal(a.signature, a.signature);
    SignatureTransitive(a.signature, b.signature, c.signature);
    hide SignatureBefore;
  }

  /** The comparator tells keys apart in this order only; it may call others equal. */
  lemma LessIsBefore(memory: FrameContents, a: Key, b: Key)
    ensures Less(memory, a, b) ==> Before(a, b)
  {
    CompareBySignatureThenFrame(memory, a, b);
    hide Compare, SignatureBefore;
  }

  ghost predicate InFrameOrder(keys: seq<Key>) {
    forall i, j :: 0 <= i < j < |keys| ==> Before(keys[i], keys[j])
  }

  ghost predicate Splits(keys: seq<Key>, low: nat, high: nat, key: Key, k: nat)
    requires low <= k <= high <= |keys|
  {
    && (forall i :: low <= i < k ==> Before(keys[i], key))
    && (forall j :: k <= j < high ==> Before(key, keys[j]))
  }

  lemma SplitsLeft(keys: seq<Key>, low: nat, middle: nat, high: nat, key: Key, k: nat)
    requires InFrameOrder(keys) && low <= k <= middle < high <= |keys|
    requires Before(key, keys[middle]) && Splits(keys, low, middle, key, k)
    ensures Splits(keys, low, high, key, k)
  {
    hide Before;
    forall j | middle < j < high
      ensures Before(key, keys[j])
    {
      BeforeIsStrictOrder(key, keys[middle], keys[j]);
    }
  }

  lemma SplitsRight(keys: seq<Key>, low: nat, middle: nat, high: nat, key: Key, k: nat)
    requires InFrameOrder(keys) && low <= middle < k <= high <= |keys|
    requires Before(keys[middle], key) && Splits(keys, middle + 1, high, key, k)
    ensures Splits(keys, low, high, key, k)
  {
    hide Before;
    forall i | low <= i < middle
      ensures Before(keys[i], key)
    {
      BeforeIsStrictOrder(keys[i], keys[middle], key);
    }
  }

  /** Whatever the contents, a descent that finds nothing ends where the key goes by frame number. */
  lemma {:induction false} DescentKeepsFrameOrder(memory: FrameContents, keys: seq<Key>, t: Shape, low: nat, key: Key)
    requires InFrameOrder(keys) && low + Size(t) <= |keys|
    ensures var at := Descend(memory, keys, t, low, key);
            at.Absent? ==> Splits(keys, low, low + Size(t), key, at.index)
  {
    hide Less, Compare, Before, InFrameOrder;
    if t == Leaf {
      return;
    }
    var l, r := t.left, t.right;
    var middle, high := low + Size(l), low + Size(t);
    var at := Descend(memory, keys, t, low, key);
    assert high == middle + 1 + Size(r);
    DescendMeans(memory, keys, l, r, low, key);
    hide Descend, Size, Splits;
    LessIsBefore(memory, key, keys[middle]);
    LessIsBefore(memory, keys[middle], key);
    if at.Absent? {
      if Less(memory, key, keys[middle]) {
        DescentKeepsFrameOrder(memory, keys, l, low, key);
        SplitsLeft(keys, low, middle, high, key, at.index);
      } else {
        DescentKeepsFrameOrder(memory, keys, r, middle + 1, key);
        SplitsRight(keys, low, middle, high, key, at.index);
      }
    }
  }

  /** So a key that is there is found, or else one that the comparator calls equal to it. */
  lemma KeyThereIsFound(memory: FrameContents, keys: seq<Key>, t: Shape, i: nat)
    requires InFrameOrder(keys) && Size(t) == |keys| && i < |keys|
    ensures Descend(memory, keys, t, 0, keys[i]).Found?
  {
    hide Descend, Before;
    DescentKeepsFrameOrder(memory, keys, t, 0, keys[i]);
    BeforeIsStrictOrder(keys[i], keys[i], keys[i]);
  }
}
