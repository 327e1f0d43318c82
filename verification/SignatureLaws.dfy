/** What fixes the hashes and the fingerprints beyond telling pages apart: their values on given
    inputs, how the halves of a hash fold, and what the length of a page adds. */
module SignatureLaws {
  import opened Pages
  import opened Hashing
  import opened Casts

  // ----- the driver's fingerprint -----

  lemma FoldOfHalves(high: bv32, low: bv32)
    ensures Fold32(Joined(high, low)) == Xor32(high, low)
  {}

  /** Every hash has two halves. */
  lemma HalvesOf(hash: bv64)
    ensures exists high: bv32, low: bv32 :: hash == Joined(high, low)
  {
    var high, low := HighHalf(hash), LowHalf(hash);
    assert hash == Joined(high, low);
  }

  function Joined(high: bv32, low: bv32): bv64 {
    ((high as bv64) << 32) | (low as bv64)
  }

  function HighHalf(hash: bv64): bv32 {
    (hash >> 32) as bv32
  }

  function LowHalf(hash: bv64): bv32 {
    (hash & 0xFFFF_FFFF) as bv32
  }

  lemma HalvesAgreeExactly(high: bv32, low: bv32)
    ensures high ^ low == 0 <==> high == low
  {}

  lemma OneSideChanges(x: bv32, y: bv32, z: bv32)
    requires x != y
    ensures Xor32(x, z) != Xor32(y, z) && Xor32(z, x) != Xor32(z, y)
  {}

  lemma SignatureFolds(words: seq<bv64>)
    ensures PageSignatureOfWords(words).fingerprint == Fold32(PageSignatureOfWords(words).hash)
  {
    hide Absorbed, Fold32;
  }

  lemma JoinedHalvesFold(words: seq<bv64>, high: bv32, low: bv32)
    requires PageSignatureOfWords(words).hash == Joined(high, low)
    ensures PageSignatureOfWords(words).fingerprint == Xor32(high, low)
  {
    hide PageSignatureOfWords, Fold32;
    SignatureFolds(words);
    FoldOfHalves(high, low);
  }

  /** When the hash of a page has these halves, its fingerprint is their exclusive or: zero exactly
      when they agree. */
  lemma DriverFingerprintFoldsHalves(words: seq<bv64>, high: bv32, low: bv32)
    requires PageSignatureOfWords(words).hash == ((high as bv64) << 32) | (low as bv64)
    ensures PageSignatureOfWords(words).fingerprint == high ^ low
    ensures PageSignatureOfWords(words).fingerprint == 0 <==> high == low
  {
    hide PageSignatureOfWords;
    JoinedHalvesFold(words, high, low);
    HalvesAgreeExactly(high, low);
  }

  /** So changing one half of the hash alone always changes the fingerprint. */
  lemma OneHalfChangesDriverFingerprint(a: seq<bv64>, b: seq<bv64>, high: bv32, low: bv32, high': bv32, low': bv32)
    requires PageSignatureOfWords(a).hash == Joined(high, low)
    requires PageSignatureOfWords(b).hash == Joined(high', low')
    requires (high == high') != (low == low')
    ensures PageSignatureOfWords(a).fingerprint != PageSignatureOfWords(b).fingerprint
  {
    hide PageSignatureOfWords, Joined, Xor32;
    JoinedHalvesFold(a, high, low);
    JoinedHalvesFold(b, high', low');
    if low == low' {
      OneSideChanges(high, high', low);
    } else {
      OneSideChanges(low, low', high);
    }
  }

  // ----- the length of a page in the engine's fingerprint -----

  ghost predicate SamplesAgree(a: Bytes, b: Bytes)
    requires SamplesInBounds(|a|) && SamplesInBounds(|b|)
  {
    forall i :: 0 <= i < 8 ==> Sample(a, i) == Sample(b, i)
  }

  lemma {:induction false} SampledOfAgreeing(a: Bytes, b: Bytes, n: nat)
    requires SamplesInBounds(|a|) && SamplesInBounds(|b|) && SamplesAgree(a, b) && n <= SAMPLES
    ensures Sampled(a, n) == Sampled(b, n)
  {
    hide Sample, AbsorbSample, SamplesInBounds;
    if n > 0 {
      SampledOfAgreeing(a, b, n - 1);
    }
  }

  lemma LengthsCancel(x: bv32, m: bv32, n: bv32)
    ensures Xor32(Xor32(x, m), Xor32(x, n)) == Xor32(m, n)
    ensures Xor32(x, m) == Xor32(x, n) <==> m == n
  {}

  lemma LengthWordIs(length: nat)
    ensures LengthWord(length) == (length % 0x1_0000_0000) as bv32
  {}

  lemma SameLengthWord(m: nat, n: nat)
    ensures LengthWord(m) == LengthWord(n) <==> m % 0x1_0000_0000 == n % 0x1_0000_0000
  {
    WordsOfNumbers(m % 0x1_0000_0000, n % 0x1_0000_0000);
  }

  lemma AgreeingSamplesCancel(a: Bytes, b: Bytes)
    requires SamplesInBounds(|a|) && SamplesInBounds(|b|) && SamplesAgree(a, b)
    ensures Xor32(FingerprintOf(a), FingerprintOf(b)) == Xor32(LengthWord(|a|), LengthWord(|b|))
    ensures FingerprintOf(a) == FingerprintOf(b) <==> LengthWord(|a|) == LengthWord(|b|)
  {
    hide Sampled, SamplesAgree, SamplesInBounds, LengthWord, Xor32;
    SampledOfAgreeing(a, b, 8);
    LengthsCancel(Sampled(a, 8), LengthWord(|a|), LengthWord(|b|));
  }

  lemma XorOfLengths(x: bv32, y: bv32, m: nat, n: nat)
    requires Xor32(x, y) == Xor32(LengthWord(m), LengthWord(n))
    ensures x ^ y == ((m % 0x1_0000_0000) as bv32) ^ ((n % 0x1_0000_0000) as bv32)
  {}

  /** Pages whose samples agree have fingerprints that differ by their lengths alone. */
  lemma FingerprintAddsLength(a: Bytes, b: Bytes)
    requires SamplesInBounds(|a|) && SamplesInBounds(|b|) && SamplesAgree(a, b)
    ensures FingerprintOf(a) ^ FingerprintOf(b)
         == ((|a| % 0x1_0000_0000) as bv32) ^ ((|b| % 0x1_0000_0000) as bv32)
  {
    hide FingerprintOf, SamplesAgree, SamplesInBounds, LengthWord, Xor32;
    AgreeingSamplesCancel(a, b);
    XorOfLengths(FingerprintOf(a), FingerprintOf(b), |a|, |b|);
  }

  /** So they share one exactly when their lengths agree modulo 2^32. */
  lemma FingerprintTellsLength(a: Bytes, b: Bytes)
    requires SamplesInBounds(|a|) && SamplesInBounds(|b|) && SamplesAgree(a, b)
    ensures FingerprintOf(a) == FingerprintOf(b) <==> |a| % 0x1_0000_0000 == |b| % 0x1_0000_0000
  {
    hide FingerprintOf, SamplesAgree, SamplesInBounds, LengthWord, Xor32;
    AgreeingSamplesCancel(a, b);
    SameLengthWord(|a|, |b|);
  }

  ghost predicate AllZero(data: Bytes) {
    forall k :: 0 <= k < |data| ==> data[k] == 0
  }

  lemma ZeroSample(data: Bytes, i: nat)
    requires SamplesInBounds(|data|) && AllZero(data) && i < 8
    ensures Sample(data, i) == Pack(0, 0, 0)
  {
    hide Pack;
    var idx := i * (|data| / 8);
    assert idx + 2 < |data|;
  }

  /** Zero pages of safe lengths below 2^32 share a fingerprint exactly when they are equally long. */
  lemma ZeroPagesTellLengths(a: Bytes, b: Bytes)
    requires SamplesInBounds(|a|) && SamplesInBounds(|b|) && AllZero(a) && AllZero(b)
    ensures FingerprintOf(a) == FingerprintOf(b) <==> |a| % 0x1_0000_0000 == |b| % 0x1_0000_0000
  {
    hide AllZero, Pack, Sample, FingerprintOf, SamplesInBounds;
    forall i | 0 <= i < 8
      ensures Sample(a, i) == Sample(b, i)
    {
      ZeroSample(a, i);
      ZeroSample(b, i);
    }
    FingerprintTellsLength(a, b);
  }

  // ----- the accumulator of the hashes -----

  /** A step takes the exclusive or first and multiplies then. */
  lemma AbsorbTakesXorFirst(hash: bv64, word: bv64)
    ensures Absorb(hash, word) == Absorb(hash ^ word, 0)
    ensures Absorb(hash, hash) == 0
    ensures Absorb(1, 0) == 1099511628211
  {}

  // ----- values -----

  /** The hash of the empty string, of one byte, and of two. */
  lemma HashValues()
    ensures HashOf([]) == 0xd725c98e9509182e
    ensures HashOf([0x61]) == 0x43a941547f0150e5
    ensures HashOf([1, 2]) == 0xba7e8a0849c875f2
  {}

  /** The driver's signature of no words and of one word. */
  lemma DriverSignatureValues()
    ensures PageSignatureOfWords([]) == PageSignature(0x14650fb0739d0383, 0x67f80c33)
    ensures PageSignatureOfWords([1]) == PageSignature(0x44bd2ad473ccf5e6, 0x3771df32)
  {}

  lemma SampleOfThree(i: nat)
    requires i < 8
    ensures SamplesInBounds(3) && Sample([1, 2, 3], i) == 0x010203
  {
    SamplesInBoundsExactly(3);
    assert i * (3 / 8) == 0;
    PackedValues();
    hide Pack;
  }

  lemma PackedValues()
    ensures Pack(1, 2, 3) == 0x010203 && Pack(0, 0, 0) == 0
  {}

  lemma SmallLengthWord(length: nat)
    requires length < 0x1_0000_0000
    ensures LengthWord(length) == length as bv32
  {
    assert length % 0x1_0000_0000 == length;
  }

  lemma LengthWordValues()
    ensures LengthWord(3) == 3 && LengthWord(4096) == 4096
  {
    hide LengthWord;
    SmallLengthWord(3);
    SmallLengthWord(4096);
  }

  /** The fingerprint of three bytes, all of which every sample reads. */
  lemma FingerprintOfThreeBytes()
    ensures SamplesInBounds(3) && FingerprintOf([1, 2, 3]) == 0xa235a02e
  {
    hide Sample, LengthWord;
    LengthWordValues();
    var data: Bytes := [1, 2, 3];
    SampleOfThree(0);
    forall i: nat | i < 8
      ensures Sample(data, i) == 0x010203
    {
      SampleOfThree(i);
    }
    assert Sampled(data, 1) == AbsorbSample(0x811c9dc5, 0x010203) == 0x7a284b2;
    assert Sampled(data, 2) == AbsorbSample(0x7a284b2, 0x010203) == 0xb76d08a3;
    assert Sampled(data, 3) == AbsorbSample(0xb76d08a3, 0x010203) == 0x5f14b9e0;
    assert Sampled(data, 4) == AbsorbSample(0x5f14b9e0, 0x010203) == 0x9236c659;
    assert Sampled(data, 5) == AbsorbSample(0x9236c659, 0x010203) == 0x87ca19ae;
    assert Sampled(data, 6) == AbsorbSample(0x87ca19ae, 0x010203) == 0x71bc9157;
    assert Sampled(data, 7) == AbsorbSample(0x71bc9157, 0x010203) == 0x616eed3c;
    assert Sampled(data, 8) == AbsorbSample(0x616eed3c, 0x010203) == 0xa235a02d;
  }

  /** The fingerprint of a zero page. */
  lemma FingerprintOfZeroPage(page: Bytes)
    requires |page| == 4096 && AllZero(page)
    ensures SamplesInBounds(4096) && FingerprintOf(page) == 0x9be16165
  {
    hide Sample, LengthWord;
    LengthWordValues();
    SamplesInBoundsExactly(4096);
    PackedValues();
    forall i: nat | i < 8
      ensures Sample(page, i) == 0
    {
      ZeroSample(page, i);
    }
    hide SamplesInBounds, AllZero, Pack;
    assert Sampled(page, 1) == AbsorbSample(0x811c9dc5, 0) == 0x50c5d1f;
    assert Sampled(page, 2) == AbsorbSample(0x50c5d1f, 0) == 0x117697cd;
    assert Sampled(page, 3) == AbsorbSample(0x117697cd, 0) == 0x4ab0f7b7;
    assert Sampled(page, 4) == AbsorbSample(0x4ab0f7b7, 0) == 0x4b95f515;
    assert Sampled(page, 5) == AbsorbSample(0x4b95f515, 0) == 0x1210d00f;
    assert Sampled(page, 6) == AbsorbSample(0x1210d00f, 0) == 0x7f77879d;
    assert Sampled(page, 7) == AbsorbSample(0x7f77879d, 0) == 0x462a7c27;
    assert Sampled(page, 8) == AbsorbSample(0x462a7c27, 0) == 0x9be17165;
  }
}
