/** The hashes of the engine (`user/dedupe_engine.cpp`) and of the driver
    (`driver/deduper.cpp`), on 64-bit and 32-bit words that wrap around. */
module Hashing {
  import opened Pages

  const OFFSET_BASIS: bv64 := 1469598103934665603
  const FNV_PRIME: bv64 := 1099511628211
  const MIX_FIRST: bv64 := 0xff51afd7ed558ccd
  const MIX_SECOND: bv64 := 0xc4ceb9fe1a85ec53
  const FINGERPRINT_BASIS: bv32 := 0x811C9DC5
  const FINGERPRINT_PRIME: bv32 := 16777619
  const SAMPLES: nat := 8

  // ----- word operations; lemmas hide their bodies and use only the laws below -----

  function Xor(x: bv64, y: bv64): bv64 {
    x ^ y
  }

  function Times(x: bv64, y: bv64): bv64 {
    x * y
  }

  function XorShift(x: bv64): bv64 {
    x ^ (x >> 33)
  }

  lemma XorCancels(x: bv64, y: bv64)
    ensures Xor(Xor(x, y), y) == x
    ensures Xor(x, Xor(x, y)) == y
  {
    XorCancelsRaw(x, y);
    assert Xor(x, y) == x ^ y;
    hide Xor;
  }

  lemma XorCancelsRaw(x: bv64, y: bv64)
    ensures Xor(x ^ y, y) == x
    ensures Xor(x, x ^ y) == y
  {}

  /** Each multiplier is odd, so it has an inverse modulo 2^64. */
  predicate AreInverse(x: bv64, p: bv64, q: bv64) {
    Times(Times(x, p), q) == x
  }

  lemma FnvPrimeInvertible(x: bv64)
    ensures AreInverse(x, FNV_PRIME, 0xce965057aff6957b)
  {
    FnvPrimeInvertibleRaw(x);
    assert Times(x, FNV_PRIME) == x * 1099511628211;
    hide Times;
  }

  lemma FnvPrimeInvertibleRaw(x: bv64)
    ensures Times(x * 1099511628211, 0xce965057aff6957b) == x
  {}

  lemma MixFirstInvertible(x: bv64)
    ensures AreInverse(x, MIX_FIRST, 0x4f74430c22a54005)
    ensures AreInverse(x, 0x4f74430c22a54005, MIX_FIRST)
  {
    MixFirstInvertibleRaw(x);
    MixFirstInverseRaw(x);
    assert Times(x, MIX_FIRST) == x * 0xff51afd7ed558ccd;
    assert Times(x, 0x4f74430c22a54005) == x * 0x4f74430c22a54005;
    hide Times;
  }

  lemma MixFirstInvertibleRaw(x: bv64)
    ensures Times(x * 0xff51afd7ed558ccd, 0x4f74430c22a54005) == x
  {}

  lemma MixFirstInverseRaw(x: bv64)
    ensures Times(x * 0x4f74430c22a54005, 0xff51afd7ed558ccd) == x
  {}

  lemma MixSecondInvertible(x: bv64)
    ensures AreInverse(x, MIX_SECOND, 0x9cb4b2f8129337db)
    ensures AreInverse(x, 0x9cb4b2f8129337db, MIX_SECOND)
  {
    MixSecondInvertibleRaw(x);
    MixSecondInverseRaw(x);
    assert Times(x, MIX_SECOND) == x * 0xc4ceb9fe1a85ec53;
    assert Times(x, 0x9cb4b2f8129337db) == x * 0x9cb4b2f8129337db;
    hide Times;
  }

  lemma MixSecondInvertibleRaw(x: bv64)
    ensures Times(x * 0xc4ceb9fe1a85ec53, 0x9cb4b2f8129337db) == x
  {}

  lemma MixSecondInverseRaw(x: bv64)
    ensures Times(x * 0x9cb4b2f8129337db, 0xc4ceb9fe1a85ec53) == x
  {}

  lemma XorShiftInvolution(x: bv64)
    ensures XorShift(XorShift(x)) == x
  {
    XorShiftInvolutionRaw(x);
    assert XorShift(x) == x ^ (x >> 33);
    hide XorShift;
  }

  lemma XorShiftInvolutionRaw(x: bv64)
    ensures XorShift(x ^ (x >> 33)) == x
  {}

  // ----- the accumulator shared by both hashes -----

  function Absorb(hash: bv64, word: bv64): bv64 {
    Times(Xor(hash, word), FNV_PRIME)
  }

  function Absorbed(hash: bv64, words: seq<bv64>): bv64 {
    if words == [] then hash
    else Absorb(Absorbed(hash, words[..|words| - 1]), words[|words| - 1])
  }

  /** Absorbing is injective in the state and injective in the word. */
  lemma AbsorbInjective(h1: bv64, w1: bv64, h2: bv64, w2: bv64)
    ensures h1 == h2 || w1 == w2 ==> (Absorb(h1, w1) == Absorb(h2, w2) <==> h1 == h2 && w1 == w2)
  {
    hide Xor, Times;
    FnvPrimeInvertible(Xor(h1, w1));
    FnvPrimeInvertible(Xor(h2, w2));
    XorCancels(h1, w1);
    XorCancels(h2, w2);
  }

  lemma {:induction false} AbsorbedConcat(hash: bv64, first: seq<bv64>, second: seq<bv64>)
    ensures Absorbed(hash, first + second) == Absorbed(Absorbed(hash, first), second)
  {
    hide Absorb;
    if second == [] {
      assert first + second == first;
    } else {
      var n := |second| - 1;
      assert (first + second)[..|first| + n] == first + second[..n];
      AbsorbedConcat(hash, first, second[..n]);
    }
  }

  /** A common suffix neither creates nor removes a collision. */
  lemma {:induction false} AbsorbedKeepsStatesApart(h1: bv64, h2: bv64, words: seq<bv64>)
    ensures Absorbed(h1, words) == Absorbed(h2, words) <==> h1 == h2
  {
    hide Absorb;
    if words != [] {
      var n := |words| - 1;
      AbsorbedKeepsStatesApart(h1, h2, words[..n]);
      AbsorbInjective(Absorbed(h1, words[..n]), words[n], Absorbed(h2, words[..n]), words[n]);
    }
  }

  ghost predicate DifferOnlyAt<T>(a: seq<T>, b: seq<T>, k: nat) {
    && k < |a| == |b|
    && a[k] != b[k]
    && forall i :: 0 <= i < |a| && i != k ==> a[i] == b[i]
  }

  lemma OneWordChangesAbsorbed(hash: bv64, a: seq<bv64>, b: seq<bv64>, k: nat)
    requires DifferOnlyAt(a, b, k)
    ensures Absorbed(hash, a) != Absorbed(hash, b)
  {
    hide Absorb;
    var prefix, suffix := a[..k], a[k + 1..];
    assert a == a[..k + 1] + suffix && b == b[..k + 1] + suffix;
    AbsorbedConcat(hash, a[..k + 1], suffix);
    AbsorbedConcat(hash, b[..k + 1], suffix);
    assert a[..k + 1][..k] == prefix && b[..k + 1][..k] == prefix;
    AbsorbInjective(Absorbed(hash, prefix), a[k], Absorbed(hash, prefix), b[k]);
    AbsorbedKeepsStatesApart(Absorbed(hash, a[..k + 1]), Absorbed(hash, b[..k + 1]), suffix);
  }

  // ----- the engine's 64-bit hash -----

  function Finalize(hash: bv64): bv64 {
    XorShift(Times(XorShift(Times(XorShift(hash), MIX_FIRST)), MIX_SECOND))
  }

  function Unfinalize(hash: bv64): bv64 {
    XorShift(Times(XorShift(Times(XorShift(hash), 0x9cb4b2f8129337db)), 0x4f74430c22a54005))
  }

  /** The finalizer is a bijection of the 64-bit words. */
  lemma FinalizeBijective(hash: bv64)
    ensures Unfinalize(Finalize(hash)) == hash
    ensures Finalize(Unfinalize(hash)) == hash
  {
    hide Times, XorShift;
    var a := XorShift(hash);
    XorShiftInvolution(hash);
    var b := XorShift(Times(a, MIX_FIRST));
    XorShiftInvolution(Times(a, MIX_FIRST));
    XorShiftInvolution(Times(b, MIX_SECOND));
    MixFirstInvertible(a);
    MixSecondInvertible(b);
    var c := XorShift(Times(a, 0x9cb4b2f8129337db));
    XorShiftInvolution(Times(a, 0x9cb4b2f8129337db));
    XorShiftInvolution(Times(c, 0x4f74430c22a54005));
    MixFirstInvertible(c);
    MixSecondInvertible(a);
  }

  function WidenByte(byte: bv8): bv64 {
    byte as bv64
  }

  function Widen(data: Bytes): seq<bv64> {
    seq(|data|, i requires 0 <= i < |data| => WidenByte(data[i]))
  }

  function HashOf(data: Bytes): bv64 {
    Finalize(Absorbed(OFFSET_BASIS, Widen(data)))
  }

  method FastHash64(data: Bytes) returns (hash: bv64)
    ensures hash == HashOf(data)
  {
    hide Xor, Times, XorShift;
    hash := OFFSET_BASIS;
    for i := 0 to |data|
      invariant hash == Absorbed(OFFSET_BASIS, Widen(data)[..i])
    {
      assert Widen(data)[..i + 1][..i] == Widen(data)[..i];
      hash := Xor(hash, WidenByte(data[i]));
      hash := Times(hash, FNV_PRIME);
    }
    assert Widen(data)[..|data|] == Widen(data);
    hash := XorShift(hash);
    hash := Times(hash, MIX_FIRST);
    hash := XorShift(hash);
    hash := Times(hash, MIX_SECOND);
    hash := XorShift(hash);
  }

  lemma WidenInjective(x: bv8, y: bv8)
    ensures WidenByte(x) == WidenByte(y) <==> x == y
  {}

  /** Strings of equal length that differ in exactly one byte never collide. */
  lemma OneByteChangesHash(a: Bytes, b: Bytes, k: nat)
    requires DifferOnlyAt(a, b, k)
    ensures HashOf(a) != HashOf(b)
  {
    hide Absorbed, Finalize, Unfinalize;
    WidenInjective(a[k], b[k]);
    OneWordChangesAbsorbed(OFFSET_BASIS, Widen(a), Widen(b), k);
    FinalizeBijective(Absorbed(OFFSET_BASIS, Widen(a)));
    FinalizeBijective(Absorbed(OFFSET_BASIS, Widen(b)));
  }

  /** Appending the same bytes to any two strings keeps collisions and keeps them apart. */
  lemma CommonSuffixKeepsHash(a: Bytes, b: Bytes, suffix: Bytes)
    ensures HashOf(a + suffix) == HashOf(b + suffix) <==> HashOf(a) == HashOf(b)
  {
    hide Absorbed, Finalize, Unfinalize;
    assert Widen(a + suffix) == Widen(a) + Widen(suffix);
    assert Widen(b + suffix) == Widen(b) + Widen(suffix);
    AbsorbedConcat(OFFSET_BASIS, Widen(a), Widen(suffix));
    AbsorbedConcat(OFFSET_BASIS, Widen(b), Widen(suffix));
    var ha, hb := Absorbed(OFFSET_BASIS, Widen(a)), Absorbed(OFFSET_BASIS, Widen(b));
    AbsorbedKeepsStatesApart(ha, hb, Widen(suffix));
    FinalizeBijective(ha);
    FinalizeBijective(hb);
    FinalizeBijective(Absorbed(ha, Widen(suffix)));
    FinalizeBijective(Absorbed(hb, Widen(suffix)));
  }

  // ----- the engine's sampled fingerprint -----

  /** The eight samples, three bytes each, lie inside the page. */
  predicate SamplesInBounds(length: nat) {
    forall i :: 0 <= i < SAMPLES ==> i * (length / SAMPLES) + 2 < length
  }

  /** The exact lengths on which the fingerprint reads no byte outside the page. */
  lemma SamplesInBoundsExactly(length: nat)
    ensures SamplesInBounds(length) <==> length >= 3 && length !in {8, 9, 16}
  {
    var stride := length / SAMPLES;
    assert length == SAMPLES * stride + length % SAMPLES;
    if SamplesInBounds(length) {
      assert 7 * stride + 2 < length;
    }
    if length >= 3 && length !in {8, 9, 16} {
      forall i | 0 <= i < SAMPLES
        ensures i * stride + 2 < length
      {
        assert i * stride <= 7 * stride;
      }
    }
  }

  /** Three bytes packed big-endian into the low 24 bits. */
  function Pack(x: bv8, y: bv8, z: bv8): bv32 {
    ((x as bv32) << 16) | ((y as bv32) << 8) | (z as bv32)
  }

  function Sample(data: Bytes, i: nat): bv32
    requires SamplesInBounds(|data|) && i < SAMPLES
  {
    var idx := i * (|data| / SAMPLES);
    Pack(data[idx], data[idx + 1], data[idx + 2])
  }

  function Xor32(x: bv32, y: bv32): bv32 {
    x ^ y
  }

  function Times32(x: bv32, y: bv32): bv32 {
    x * y
  }

  function AbsorbSample(acc: bv32, sample: bv32): bv32 {
    Times32(Xor32(acc, sample), FINGERPRINT_PRIME)
  }

  /** The page length truncated to 32 bits. */
  function LengthWord(length: nat): bv32 {
    (length % 0x1_0000_0000) as bv32
  }

  function Sampled(data: Bytes, n: nat): bv32
    requires SamplesInBounds(|data|) && n <= SAMPLES
  {
    if n == 0 then FINGERPRINT_BASIS
    else AbsorbSample(Sampled(data, n - 1), Sample(data, n - 1))
  }

  function FingerprintOf(data: Bytes): bv32
    requires SamplesInBounds(|data|)
  {
    Xor32(Sampled(data, SAMPLES), LengthWord(|data|))
  }

  method ComputeFingerprint(data: Bytes) returns (fingerprint: bv32)
    requires SamplesInBounds(|data|)
    ensures fingerprint == FingerprintOf(data)
  {
    hide Xor32, Times32, Pack, LengthWord;
    var acc := FINGERPRINT_BASIS;
    var stride := |data| / SAMPLES;
    for i := 0 to SAMPLES
      invariant acc == Sampled(data, i)
    {
      var idx := i * stride;
      var value := Pack(data[idx], data[idx + 1], data[idx + 2]);
      acc := Xor32(acc, value);
      acc := Times32(acc, FINGERPRINT_PRIME);
    }
    fingerprint := Xor32(acc, LengthWord(|data|));
  }

  lemma Xor32Cancels(x: bv32, y: bv32)
    ensures Xor32(Xor32(x, y), y) == x
    ensures Xor32(x, Xor32(x, y)) == y
  {
    Xor32CancelsRaw(x, y);
    assert Xor32(x, y) == x ^ y;
    hide Xor32;
  }

  lemma Xor32CancelsRaw(x: bv32, y: bv32)
    ensures Xor32(x ^ y, y) == x
    ensures Xor32(x, x ^ y) == y
  {}

  lemma PackInjective(x1: bv8, x2: bv8, x3: bv8, y1: bv8, y2: bv8, y3: bv8)
    ensures Pack(x1, x2, x3) == Pack(y1, y2, y3) <==> x1 == y1 && x2 == y2 && x3 == y3
  {}

  // ----- page signatures -----

  function SignatureOf(data: Bytes): PageSignature
    requires SamplesInBounds(|data|)
  {
    PageSignature(HashOf(data), FingerprintOf(data))
  }

  method MakeSignature(data: Bytes) returns (signature: PageSignature)
    requires SamplesInBounds(|data|)
    ensures signature == SignatureOf(data)
  {
    var hash := FastHash64(data);
    var fingerprint := ComputeFingerprint(data);
    signature := PageSignature(hash, fingerprint);
  }

  // ----- the driver's page hash -----

  /** The truncating cast of the driver's fingerprint. */
  function Fold32(hash: bv64): bv32 {
    (((hash >> 32) ^ hash) & 0xFFFF_FFFF) as bv32
  }

  function PageSignatureOfWords(words: seq<bv64>): PageSignature {
    var hash := Absorbed(OFFSET_BASIS, words);
    PageSignature(hash, Fold32(hash))
  }

  method MakePageSignatureFromUserPage(words: seq<bv64>) returns (signature: PageSignature)
    ensures signature == PageSignatureOfWords(words)
  {
    hide Xor, Times, Fold32;
    var hash := OFFSET_BASIS;
    for index := 0 to |words|
      invariant hash == Absorbed(OFFSET_BASIS, words[..index])
    {
      assert words[..index + 1][..index] == words[..index];
      hash := Xor(hash, words[index]);
      hash := Times(hash, FNV_PRIME);
    }
    assert words[..|words|] == words;
    signature := PageSignature(hash, Fold32(hash));
  }

  /** In the driver the fingerprint adds nothing: signatures are equal exactly when hashes are,
      a shared tail of words is irrelevant, and one changed word always changes the signature. */
  lemma DriverSignatureSeparates(a: seq<bv64>, b: seq<bv64>, suffix: seq<bv64>)
    ensures PageSignatureOfWords(a + suffix) == PageSignatureOfWords(b + suffix)
       <==> Absorbed(OFFSET_BASIS, a) == Absorbed(OFFSET_BASIS, b)
    ensures (exists k: nat :: DifferOnlyAt(a, b, k)) ==> PageSignatureOfWords(a) != PageSignatureOfWords(b)
  {
    hide Absorbed, Fold32;
    AbsorbedConcat(OFFSET_BASIS, a, suffix);
    AbsorbedConcat(OFFSET_BASIS, b, suffix);
    AbsorbedKeepsStatesApart(Absorbed(OFFSET_BASIS, a), Absorbed(OFFSET_BASIS, b), suffix);
    if k: nat :| DifferOnlyAt(a, b, k) {
      OneWordChangesAbsorbed(OFFSET_BASIS, a, b, k);
    }
  }
}
