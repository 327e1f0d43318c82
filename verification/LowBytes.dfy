/** The low bytes of the 32-bit words of the fingerprint. */
module LowBytes {
  import opened Hashing

  function And32(x: bv32, y: bv32): bv32 {
    x & y
  }

  /** The lowest one, two or three bytes. */
  function Mask(bytes: nat): bv32 {
    if bytes == 1 then 0xFF else if bytes == 2 then 0xFFFF else 0xFF_FFFF
  }

  function Low(x: bv32, bytes: nat): bv32 {
    And32(x, Mask(bytes))
  }

  lemma LowOfPack(x1: bv8, x2: bv8, x3: bv8, y1: bv8, y2: bv8, y3: bv8)
    ensures Low(Pack(x1, x2, x3), 1) == Low(Pack(y1, y2, y3), 1) <==> x3 == y3
    ensures Low(Pack(x1, x2, x3), 2) == Low(Pack(y1, y2, y3), 2) <==> x2 == y2 && x3 == y3
    ensures Low(Pack(x1, x2, x3), 3) == Low(Pack(y1, y2, y3), 3) <==> x1 == y1 && x2 == y2 && x3 == y3
  {
    hide Pack, And32;
    MaskedPack(x1, x2, x3);
    MaskedPack(y1, y2, y3);
    PackInjective(0, 0, x3, 0, 0, y3);
    PackInjective(0, x2, x3, 0, y2, y3);
    PackInjective(x1, x2, x3, y1, y2, y3);
  }

  lemma MaskedPack(x: bv8, y: bv8, z: bv8)
    ensures And32(Pack(x, y, z), 0xFF) == Pack(0, 0, z)
    ensures And32(Pack(x, y, z), 0xFFFF) == Pack(0, y, z)
    ensures And32(Pack(x, y, z), 0xFF_FFFF) == Pack(x, y, z)
  {}

  lemma LowOfXor(x: bv32, s: bv32, bytes: nat)
    ensures Low(Xor32(x, s), bytes) == Xor32(Low(x, bytes), Low(s, bytes))
  {
    hide Xor32, And32, Mask;
    MaskedXor(x, s, Mask(bytes));
  }

  lemma MaskedXor(x: bv32, s: bv32, mask: bv32)
    ensures And32(Xor32(x, s), mask) == Xor32(And32(x, mask), And32(s, mask))
  {}

  // ----- products -----

  /** The low bytes of a product by the inverse of the prime; they depend on the low bytes of
      the factor only. */
  function InverseLow(x: bv32, mask: bv32): bv32 {
    (x * 0x359c449b) & mask
  }

  lemma InverseLowOfMaskedRaw(x: bv32)
    ensures InverseLow(x & 0xFF, 0xFF) == InverseLow(x, 0xFF)
    ensures InverseLow(x & 0xFFFF, 0xFFFF) == InverseLow(x, 0xFFFF)
    ensures InverseLow(x & 0xFF_FFFF, 0xFF_FFFF) == InverseLow(x, 0xFF_FFFF)
  {}

  lemma Masked(x: bv32)
    ensures And32(x, 0xFF) == x & 0xFF
    ensures And32(x, 0xFFFF) == x & 0xFFFF
    ensures And32(x, 0xFF_FFFF) == x & 0xFF_FFFF
  {}

  lemma InverseLowOfMasked(x: bv32)
    ensures InverseLow(And32(x, 0xFF), 0xFF) == InverseLow(x, 0xFF)
    ensures InverseLow(And32(x, 0xFFFF), 0xFFFF) == InverseLow(x, 0xFFFF)
    ensures InverseLow(And32(x, 0xFF_FFFF), 0xFF_FFFF) == InverseLow(x, 0xFF_FFFF)
  {
    hide And32, InverseLow;
    InverseLowOfMaskedRaw(x);
    Masked(x);
  }

  lemma InverseLowOfProductRaw(x: bv32)
    ensures InverseLow(x * 16777619, 0xFF) == x & 0xFF
    ensures InverseLow(x * 16777619, 0xFFFF) == x & 0xFFFF
    ensures InverseLow(x * 16777619, 0xFF_FFFF) == x & 0xFF_FFFF
  {}

  lemma InverseLowOfProduct(x: bv32)
    ensures InverseLow(Times32(x, FINGERPRINT_PRIME), 0xFF) == And32(x, 0xFF)
    ensures InverseLow(Times32(x, FINGERPRINT_PRIME), 0xFFFF) == And32(x, 0xFFFF)
    ensures InverseLow(Times32(x, FINGERPRINT_PRIME), 0xFF_FFFF) == And32(x, 0xFF_FFFF)
  {
    InverseLowOfProductRaw(x);
    assert Times32(x, FINGERPRINT_PRIME) == x * 16777619;
    hide Times32, InverseLow, And32;
    Masked(x);
  }

  /** A factor's low bytes can be told from those of its product by the prime. */
  lemma LowOfProduct(x: bv32, bytes: nat)
    ensures Low(x, bytes) == InverseLow(Low(Times32(x, FINGERPRINT_PRIME), bytes), Mask(bytes))
  {
    hide Times32, InverseLow, And32;
    InverseLowOfProduct(x);
    InverseLowOfMasked(Times32(x, FINGERPRINT_PRIME));
  }
}
