/** Which changes of a page the engine's sampled fingerprint tells (`user/dedupe_engine.cpp`). */
module Fingerprints {
  import opened Pages
  import opened Hashing
  import opened LowBytes

  /** Position k of a string of this length is read by sample i. */
  predicate ReadBySample(length: nat, i: nat, k: nat) {
    var idx := i * (length / SAMPLES);
    idx <= k < idx + 3
  }

  ghost predicate IsSampled(length: nat, k: nat) {
    exists i: nat :: i < SAMPLES && ReadBySample(length, i, k)
  }

  lemma SampleDiffers(a: Bytes, b: Bytes, k: nat, i: nat)
    requires DifferOnlyAt(a, b, k) && SamplesInBounds(|a|) && i < SAMPLES
    ensures Sample(a, i) != Sample(b, i) <==> ReadBySample(|a|, i, k)
  {
    hide Pack;
    var idx := i * (|a| / SAMPLES);
    assert idx + 2 < |a|;
    PackInjective(a[idx], a[idx + 1], a[idx + 2], b[idx], b[idx + 1], b[idx + 2]);
  }

  /** Absorbing keeps states apart in their low bytes when the samples agree there, and brings
      equal states apart when the samples do not. */
  lemma AbsorbKeepsLowApart(x: bv32, s: bv32, y: bv32, t: bv32, bytes: nat)
    requires if Low(s, bytes) == Low(t, bytes) then Low(x, bytes) != Low(y, bytes) else x == y
    ensures Low(AbsorbSample(x, s), bytes) != Low(AbsorbSample(y, t), bytes)
  {
    hide Low, Xor32, Times32, InverseLow, Mask;
    LowOfXor(x, s, bytes);
    LowOfXor(y, t, bytes);
    Xor32Cancels(Low(x, bytes), Low(s, bytes));
    Xor32Cancels(Low(y, bytes), Low(t, bytes));
    LowOfProduct(Xor32(x, s), bytes);
    LowOfProduct(Xor32(y, t), bytes);
  }

  /** How many low bytes of sample i the position k is among, when the sample reads it. */
  function BytesFrom(length: nat, i: nat, k: nat): nat
    requires ReadBySample(length, i, k)
  {
    i * (length / SAMPLES) + 3 - k
  }

  lemma LowOfSample(a: Bytes, b: Bytes, k: nat, first: nat, i: nat)
    requires DifferOnlyAt(a, b, k) && SamplesInBounds(|a|) && |a| >= SAMPLES && first <= i < SAMPLES
    requires ReadBySample(|a|, first, k)
    ensures var bytes := BytesFrom(|a|, first, k);
            Low(Sample(a, i), bytes) == Low(Sample(b, i), bytes) <==> i != first
  {
    hide Pack, Low;
    var stride := |a| / SAMPLES;
    var idx := i * stride;
    assert idx + 2 < |a|;
    LowOfPack(a[idx], a[idx + 1], a[idx + 2], b[idx], b[idx + 1], b[idx + 2]);
    if first < i {
      LaterStart(stride, first, i);
    }
  }

  lemma LaterStart(stride: nat, i: nat, j: nat)
    requires i < j && stride >= 1
    ensures i * stride < j * stride
  {}

  lemma {:induction false} SampledAgrees(a: Bytes, b: Bytes, k: nat, n: nat)
    requires DifferOnlyAt(a, b, k) && SamplesInBounds(|a|) && n <= SAMPLES
    requires forall i: nat :: i < n ==> !ReadBySample(|a|, i, k)
    ensures Sampled(a, n) == Sampled(b, n)
  {
    hide AbsorbSample, Sample, ReadBySample;
    if n > 0 {
      SampledAgrees(a, b, k, n - 1);
      SampleDiffers(a, b, k, n - 1);
    }
  }

  /** From the first sample that reads the changed byte on, the states differ in the bytes up to
      that byte's place: later samples read it at a higher place. */
  lemma {:induction false} SampledDiffers(a: Bytes, b: Bytes, k: nat, first: nat, n: nat)
    requires DifferOnlyAt(a, b, k) && SamplesInBounds(|a|) && |a| >= SAMPLES && first < n <= SAMPLES
    requires ReadBySample(|a|, first, k) && forall i: nat :: i < first ==> !ReadBySample(|a|, i, k)
    ensures var bytes := BytesFrom(|a|, first, k); Low(Sampled(a, n), bytes) != Low(Sampled(b, n), bytes)
  {
    hide AbsorbSample, Sample, ReadBySample, Low, BytesFrom;
    if n == first + 1 {
      SampledAgrees(a, b, k, first);
    } else {
      SampledDiffers(a, b, k, first, n - 1);
    }
    LowOfSample(a, b, k, first, n - 1);
    AbsorbKeepsLowApart(Sampled(a, n - 1), Sample(a, n - 1), Sampled(b, n - 1), Sample(b, n - 1),
                        BytesFrom(|a|, first, k));
  }

  lemma {:induction false} FirstReader(length: nat, k: nat, i: nat) returns (first: nat)
    requires ReadBySample(length, i, k)
    ensures first <= i && ReadBySample(length, first, k)
    ensures forall j: nat :: j < first ==> !ReadBySample(length, j, k)
  {
    hide ReadBySample;
    if j: nat :| j < i && ReadBySample(length, j, k) {
      first := FirstReader(length, k, j);
    } else {
      first := i;
    }
  }

  /** On a page of at least eight bytes, changing one byte changes the fingerprint exactly when
      that byte is sampled, however often. */
  lemma OneByteChangesFingerprint(a: Bytes, b: Bytes, k: nat)
    requires DifferOnlyAt(a, b, k) && SamplesInBounds(|a|) && |a| >= SAMPLES
    ensures FingerprintOf(a) != FingerprintOf(b) <==> IsSampled(|a|, k)
  {
    hide Sampled, Xor32, LengthWord, ReadBySample, Low;
    Xor32Cancels(Sampled(a, SAMPLES), LengthWord(|a|));
    Xor32Cancels(Sampled(b, SAMPLES), LengthWord(|b|));
    if i: nat :| i < SAMPLES && ReadBySample(|a|, i, k) {
      var first := FirstReader(|a|, k, i);
      SampledDiffers(a, b, k, first, SAMPLES);
    } else {
      SampledAgrees(a, b, k, SAMPLES);
    }
  }

  /** The fingerprint of pages of this length tells one changed byte exactly when it is sampled. */
  ghost predicate TellsSampledBytes(length: nat)
    requires SamplesInBounds(length)
  {
    forall a: Bytes, b: Bytes, k: nat | |a| == |b| == length && DifferOnlyAt(a, b, k) ::
      FingerprintOf(a) != FingerprintOf(b) <==> IsSampled(length, k)
  }

  /** Shorter pages are read eight times at the same place, and some of them collide. */
  function ShortPage(first: bv8, length: nat): (data: Bytes)
    requires length > 0
    ensures |data| == length
  {
    [first] + seq(length - 1, _ => 0)
  }

  lemma ShortSample(first: bv8, length: nat, n: nat)
    requires 3 <= length < SAMPLES && n < SAMPLES
    ensures SamplesInBounds(length) && Sample(ShortPage(first, length), n) == Pack(first, 0, 0)
  {
    SamplesInBoundsExactly(length);
    hide Pack;
    assert n * (length / SAMPLES) == 0;
  }

  function Repeated(sample: bv32, n: nat): bv32 {
    if n == 0 then FINGERPRINT_BASIS else AbsorbSample(Repeated(sample, n - 1), sample)
  }

  lemma {:induction false} ShortSampled(first: bv8, length: nat, n: nat)
    requires 3 <= length < SAMPLES && SamplesInBounds(length) && n <= SAMPLES
    ensures Sampled(ShortPage(first, length), n) == Repeated(Pack(first, 0, 0), n)
  {
    hide Pack, AbsorbSample, Sample, ShortPage;
    if n > 0 {
      ShortSampled(first, length, n - 1);
      ShortSample(first, length, n - 1);
    }
  }

  lemma CollidingSamples()
    ensures Repeated(Pack(44, 0, 0), 8) == Repeated(Pack(123, 0, 0), 8)
  {
    assert Repeated(Pack(44, 0, 0), 1) == 0x24885d1f && Repeated(Pack(123, 0, 0), 1) == 0x7b1d5d1f;
    assert Repeated(Pack(44, 0, 0), 2) == 0xcdbe97cd && Repeated(Pack(123, 0, 0), 2) == 0x612497cd;
    assert Repeated(Pack(44, 0, 0), 3) == 0x6ac4f7b7 && Repeated(Pack(123, 0, 0), 3) == 0x167bf7b7;
    assert Repeated(Pack(44, 0, 0), 4) == 0x3bdf515 && Repeated(Pack(123, 0, 0), 4) == 0x5a85f515;
    assert Repeated(Pack(44, 0, 0), 5) == 0xb3c4d00f && Repeated(Pack(123, 0, 0), 5) == 0x545bd00f;
    assert Repeated(Pack(44, 0, 0), 6) == 0x467f879d && Repeated(Pack(123, 0, 0), 6) == 0x7ea7879d;
    assert Repeated(Pack(44, 0, 0), 7) == 0x527e7c27 && Repeated(Pack(123, 0, 0), 7) == 0x52297c27;
    assert Repeated(Pack(44, 0, 0), 8) == 0xbed97165 && Repeated(Pack(123, 0, 0), 8) == 0xbed97165;
  }

  lemma ShortPagesCollide(length: nat)
    requires 3 <= length < SAMPLES && SamplesInBounds(length)
    ensures !TellsSampledBytes(length)
  {
    hide Repeated, Pack, Sampled;
    var a, b := ShortPage(44, length), ShortPage(123, length);
    ShortSampled(44, length, SAMPLES);
    ShortSampled(123, length, SAMPLES);
    CollidingSamples();
    assert DifferOnlyAt(a, b, 0);
    assert ReadBySample(length, 0, 0);
    assert FingerprintOf(a) == FingerprintOf(b);
  }

  /** On the lengths on which the fingerprint stays inside the page, changing one byte changes it
      exactly when that byte is sampled, if and only if the page has at least eight bytes. */
  lemma OneByteChangesFingerprintExactlyWhenSampled(length: nat)
    requires SamplesInBounds(length)
    ensures TellsSampledBytes(length) <==> length >= SAMPLES
  {
    hide FingerprintOf, IsSampled, DifferOnlyAt;
    if length >= SAMPLES {
      forall a: Bytes, b: Bytes, k: nat | |a| == |b| == length && DifferOnlyAt(a, b, k)
        ensures FingerprintOf(a) != FingerprintOf(b) <==> IsSampled(length, k)
      {
        OneByteChangesFingerprint(a, b, k);
      }
    } else {
      SamplesInBoundsExactly(length);
      ShortPagesCollide(length);
    }
  }
}
