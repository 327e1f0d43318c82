/** Casting a number below 2^32 to a 32-bit word loses nothing. */
module Casts {
  predicate SameBit(m: nat, n: nat, d: nat)
    requires d > 0
  {
    (m / d) % 2 == (n / d) % 2
  }

  predicate SameBits(m: nat, n: nat) {
    && SameBit(m, n, 0x1) && SameBit(m, n, 0x2) && SameBit(m, n, 0x4) && SameBit(m, n, 0x8)
    && SameBit(m, n, 0x10) && SameBit(m, n, 0x20) && SameBit(m, n, 0x40) && SameBit(m, n, 0x80)
    && SameBit(m, n, 0x100) && SameBit(m, n, 0x200) && SameBit(m, n, 0x400) && SameBit(m, n, 0x800)
    && SameBit(m, n, 0x1000) && SameBit(m, n, 0x2000) && SameBit(m, n, 0x4000) && SameBit(m, n, 0x8000)
    && SameBit(m, n, 0x1_0000) && SameBit(m, n, 0x2_0000) && SameBit(m, n, 0x4_0000) && SameBit(m, n, 0x8_0000)
    && SameBit(m, n, 0x10_0000) && SameBit(m, n, 0x20_0000) && SameBit(m, n, 0x40_0000) && SameBit(m, n, 0x80_0000)
    && SameBit(m, n, 0x100_0000) && SameBit(m, n, 0x200_0000) && SameBit(m, n, 0x400_0000) && SameBit(m, n, 0x800_0000)
    && SameBit(m, n, 0x1000_0000)
    && SameBit(m, n, 0x2000_0000) && SameBit(m, n, 0x4000_0000) && SameBit(m, n, 0x8000_0000)
  }

  lemma SameWordSameBits(m: nat, n: nat)
    requires m < 0x1_0000_0000 && n < 0x1_0000_0000 && m as bv32 == n as bv32
    ensures SameBits(m, n)
  {}

  lemma QuotientIs(m: nat, d: nat, q: nat, r: nat)
    requires m == d * q + r && r < d
    ensures m / d == q
  {
    var p := m / d;
    Grows(d, p, q);
    Grows(d, q, p);
    assert m == d * p + m % d && 0 <= m % d < d;
  }

  lemma {:induction false} Grows(d: nat, p: nat, q: nat)
    ensures p < q ==> d * p + d <= d * q
  {
    if p + 1 < q {
      Grows(d, p, q - 1);
    }
    if p < q {
      assert d * q == d * (q - 1) + d;
    }
  }

  lemma Halved(m: nat, d: nat)
    requires d > 0
    ensures m / (2 * d) == (m / d) / 2
  {
    var q, r := m / d / 2, (m / d) % 2;
    assert m == d * (m / d) + m % d;
    assert m / d == 2 * q + r;
    assert m == (2 * d) * q + (d * r + m % d);
    QuotientIs(m, 2 * d, q, d * r + m % d);
  }

  /** Numbers that agree above a bit and in it agree from that bit on. */
  lemma HigherBits(m: nat, n: nat, d: nat)
    requires d > 0 && SameBit(m, n, d) && m / (2 * d) == n / (2 * d)
    ensures m / d == n / d
  {
    Halved(m, d);
    Halved(n, d);
  }

  lemma SameBitsSameNumber(m: nat, n: nat)
    requires m < 0x1_0000_0000 && n < 0x1_0000_0000 && SameBits(m, n)
    ensures m == n
  {
    hide SameBit;
    HigherBits(m, n, 0x8000_0000); HigherBits(m, n, 0x4000_0000);
    HigherBits(m, n, 0x2000_0000); HigherBits(m, n, 0x1000_0000);
    HigherBits(m, n, 0x800_0000); HigherBits(m, n, 0x400_0000);
    HigherBits(m, n, 0x200_0000); HigherBits(m, n, 0x100_0000);
    HigherBits(m, n, 0x80_0000); HigherBits(m, n, 0x40_0000); HigherBits(m, n, 0x20_0000); HigherBits(m, n, 0x10_0000);
    HigherBits(m, n, 0x8_0000); HigherBits(m, n, 0x4_0000); HigherBits(m, n, 0x2_0000); HigherBits(m, n, 0x1_0000);
    HigherBits(m, n, 0x8000); HigherBits(m, n, 0x4000); HigherBits(m, n, 0x2000); HigherBits(m, n, 0x1000);
    HigherBits(m, n, 0x800); HigherBits(m, n, 0x400); HigherBits(m, n, 0x200); HigherBits(m, n, 0x100);
    HigherBits(m, n, 0x80); HigherBits(m, n, 0x40); HigherBits(m, n, 0x20); HigherBits(m, n, 0x10);
    HigherBits(m, n, 0x8); HigherBits(m, n, 0x4); HigherBits(m, n, 0x2); HigherBits(m, n, 0x1);
  }

  lemma WordsOfNumbers(m: nat, n: nat)
    requires m < 0x1_0000_0000 && n < 0x1_0000_0000
    ensures m as bv32 == n as bv32 <==> m == n
  {
    if m as bv32 == n as bv32 {
      SameWordSameBits(m, n);
      hide SameBits;
      SameBitsSameNumber(m, n);
    }
  }
}
