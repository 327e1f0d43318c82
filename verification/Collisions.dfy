/** Pages that the driver's own signature does not separate (`driver/deduper.cpp`). */
module Collisions {
  import opened Hashing
  import opened PageOrder
  import opened GroupingCondition

  /** The second word that brings two pages with different first words to the same hash. */
  function Balancing(first: bv64, second: bv64, other: bv64): bv64 {
    Xor(Xor(Absorb(OFFSET_BASIS, first), second), Absorb(OFFSET_BASIS, other))
  }

  /** Every page has, for every other first word, a different page with the same signature. */
  lemma DriverSignaturesCollide(first: bv64, second: bv64, other: bv64, tail: seq<bv64>)
    requires first != other
    ensures var left, right := [first, second] + tail, [other, Balancing(first, second, other)] + tail;
            left != right && PageSignatureOfWords(left) == PageSignatureOfWords(right)
  {
    hide Xor, Times, Absorbed, Absorb, PageSignatureOfWords;
    var balancing := Balancing(first, second, other);
    var a, b := [first, second], [other, balancing];
    XorCancels(Xor(Absorb(OFFSET_BASIS, first), second), Absorb(OFFSET_BASIS, other));
    XorCommutes(balancing, Absorb(OFFSET_BASIS, other));
    AbsorbedPair(first, second);
    AbsorbedPair(other, balancing);
    DriverSignatureSeparates(a, b, tail);
    assert (a + tail)[0] == first && (b + tail)[0] == other;
  }

  lemma XorCommutes(x: bv64, y: bv64)
    ensures Xor(x, y) == Xor(y, x)
  {}

  lemma AbsorbedPair(first: bv64, second: bv64)
    ensures Absorbed(OFFSET_BASIS, [first, second])
         == Times(Xor(Absorb(OFFSET_BASIS, first), second), FNV_PRIME)
  {
    assert [first, second][..1] == [first];
    assert Absorbed(OFFSET_BASIS, [first]) == Absorb(Absorbed(OFFSET_BASIS, []), first);
  }

  /** So with the driver's own signature contents need not be contiguous: on three frames of which
      the outer two hold the same page the comparator is not a strict weak order, and a run
      enters that page twice, through trees that have what was looked up last at their root. */
  lemma DriverContentsNeedNotBeContiguous(memory: FrameContents, f: Frame, g: Frame, h: Frame, first: bv64,
                                          second: bv64, other: bv64, tail: seq<bv64>)
    requires f < g < h && first != other
    requires memory(f) == memory(h) == [first, second] + tail
    requires memory(g) == [other, Balancing(first, second, other)] + tail
    ensures !Contiguous(memory, PageSignatureOfWords, iset{f, g, h})
    ensures !IsStrictWeakOrder(memory, Keys(memory, PageSignatureOfWords, iset{f, g, h}))
    ensures IsSplayed(memory, PageSignatureOfWords, HidingRun(f, g, h))
    ensures !GroupsByContent(memory, PageSignatureOfWords, HidingRun(f, g, h))
  {
    hide *;
    DriverSignaturesCollide(first, second, other, tail);
    InterruptedContents(memory, PageSignatureOfWords, f, g, h);
    StrictWeakOrderExactlyWhenContiguous(memory, PageSignatureOfWords, iset{f, g, h});
    HidingRunIsSplayed(memory, PageSignatureOfWords, f, g, h);
    HidingRunFails(memory, PageSignatureOfWords, f, g, h);
  }

  lemma InterruptedContents(memory: FrameContents, sig: SignWords, f: Frame, g: Frame, h: Frame)
    requires f < g < h && sig(memory(f)) == sig(memory(g)) && memory(f) == memory(h) && memory(g) != memory(f)
    ensures !Contiguous(memory, sig, iset{f, g, h})
  {
    var frames := iset{f, g, h};
    assert f in frames && g in frames && h in frames;
  }
}
