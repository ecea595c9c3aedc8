/** The 48-bit linear-congruential recurrence that drives every generator
    operation: seed <- (seed * 0x5DEECE66D + 0xB) mod 2^48, with the constants
    of java.util.Random of Java SE 8. The recurrence has the linear-congruential
    form of Knuth, The Art of Computer Programming Vol. 2, section 3.2.1. */
module Lcg {
  import opened Arith

  const Multiplier: nat := 0x5_DEEC_E66D
  const Addend: nat := 0xB
  /** 2^48: seeds are 48-bit values. */
  const Modulus: nat := 0x1_0000_0000_0000
  /** 2^47: half of the seed space. */
  const Half: nat := 0x8000_0000_0000
  /** 2^31: the exclusive bound of a 31-bit draw. */
  const Two31: nat := 0x8000_0000
  /** 2^32 and 2^64: the ranges of the C types uint32_t and uint64_t. */
  const Two32: nat := 0x1_0000_0000
  const Two64: nat := 0x1_0000_0000_0000_0000
  const Int32Max: int := 0x7FFF_FFFF
  const Int32Min: int := -0x8000_0000
  const Int64Max: int := 0x7FFF_FFFF_FFFF_FFFF
  const Int64Min: int := -0x8000_0000_0000_0000

  /** The state that setSeed(seed) installs: (seed ^ 0x5DEECE66D) & ((1 << 48) - 1),
      for a uint64_t argument; masking to the low 48 bits is the remainder by 2^48. */
  function Scramble(seed: nat): (r: nat)
    requires seed < Two64
    ensures r < Modulus
  {
    Xor(seed, Multiplier) % Modulus
  }

  /** setSeed keeps exactly the low 48 bits of its argument: two arguments give
      the same state if and only if they agree on those bits. */
  lemma ScrambleInjective(a: nat, b: nat)
    requires a < Two64 && b < Two64
    ensures Scramble(a) == Scramble(b) <==> a % Modulus == b % Modulus
  {
    Pow2Values();
    XorLow(a, Multiplier, 48);
    XorLow(b, Multiplier, 48);
    var a0, b0 := a % Modulus, b % Modulus;
    assert Multiplier % Modulus == Multiplier;
    assert Scramble(a) == Xor(a0, Multiplier) && Scramble(b) == Xor(b0, Multiplier);
    if Scramble(a) == Scramble(b) {
      XorInvolution(a0, Multiplier);
      XorInvolution(b0, Multiplier);
    }
  }

  /** One step of the recurrence. */
  function Step(s: nat): (r: nat)
    ensures r < Modulus
  {
    (s * Multiplier + Addend) % Modulus
  }

  /** The seed after n steps. */
  function Iterate(s: nat, n: nat): (r: nat)
    requires s < Modulus
    ensures r < Modulus
  {
    if n == 0 then s else Step(Iterate(s, n - 1))
  }

  /** The top `bits` bits of a 48-bit seed: seed >> (48 - bits). */
  function Top(s: nat, bits: nat): (r: nat)
    requires s < Modulus && 1 <= bits <= 32
    ensures r < Pow2(bits)
    ensures bits == 31 ==> r < Two31
    ensures bits == 32 ==> r < Two32
  {
    TopInRange(s, bits);
    s / Pow2(48 - bits)
  }

  lemma TopInRange(s: nat, bits: nat)
    requires s < Modulus && 1 <= bits <= 32
    ensures 0 <= s / Pow2(48 - bits) < Pow2(bits)
    ensures bits == 31 ==> s / Pow2(48 - bits) < Two31
    ensures bits == 32 ==> s / Pow2(48 - bits) < Two32
  {
    Pow2Add(48 - bits, bits);
    Pow2Values();
    DivBelow(s, Pow2(48 - bits), Pow2(bits));
  }

  /** The top bit of a seed is the top bit of its top 32 bits. */
  lemma TopBit(s: nat)
    requires s < Modulus
    ensures Top(s, 1) == Top(s, 32) / Two31
  {
    Pow2Add(16, 31);
    Pow2Values();
    DivDiv(s, 0x1_0000, Two31);
  }

  /** The two's-complement reading of a 32-bit pattern, as a cast to int32_t. */
  function ToInt32(u: nat): (r: int)
    requires u < Two32
    ensures Int32Min <= r <= Int32Max
    ensures (r - u) % Two32 == 0
  {
    if u <= Int32Max then u else u - Two32
  }

  /** The two's-complement reading of a 64-bit pattern, as a cast to int64_t. */
  function ToInt64(u: nat): (r: int)
    requires u < Two64
    ensures Int64Min <= r <= Int64Max
    ensures (r - u) % Two64 == 0
  {
    if u <= Int64Max then u else u - Two64
  }

  lemma {:induction false} IterateAdd(s: nat, m: nat, n: nat)
    requires s < Modulus
    ensures Iterate(s, m + n) == Iterate(Iterate(s, m), n)
  {
    if n > 0 {
      IterateAdd(s, m, n - 1);
    }
  }

  /** n steps of the recurrence act on every seed as t |-> (a * t + c) mod 2^48. */
  ghost predicate Affine(n: nat, a: nat, c: nat)
  {
    forall t: nat :: t < Modulus ==> Iterate(t, n) == (a * t + c) % Modulus
  }

  /** Reducing the factor and the addend first does not change an affine map modulo 2^48. */
  lemma ModAffine(p: int, s: int, q: int)
    ensures ((p % Modulus) * s + q % Modulus) % Modulus == (p * s + q) % Modulus
  {
    var a, y := p % Modulus, s * p;
    ModMulRight(s, p, q % Modulus, Modulus);
    assert q == (q / Modulus) * Modulus + q % Modulus;
    ModAddMultiple(y + q % Modulus, q / Modulus, Modulus);
    assert a * s == s * a && p * s == y;
  }

  /** Applying t |-> (a * t + c) mod 2^48 twice. */
  lemma AffineSquare(a: nat, c: nat, t: nat)
    ensures (a * ((a * t + c) % Modulus) + c) % Modulus
         == (((a * a) % Modulus) * t + (a * c + c) % Modulus) % Modulus
  {
    ModMulRight(a, a * t + c, c, Modulus);
    assert a * (a * t + c) + c == (a * a) * t + (a * c + c);
    ModAffine(a * a, t, a * c + c);
  }

  lemma AffineOneStep()
    ensures Affine(1, Multiplier, Addend)
  {
    forall t: nat | t < Modulus
      ensures Iterate(t, 1) == (Multiplier * t + Addend) % Modulus
    {
      assert Iterate(t, 1) == Step(t);
    }
  }

  /** Doubling the number of steps squares the affine map. */
  lemma AffineDoubling(n: nat, a: nat, c: nat, a2: nat, c2: nat)
    requires Affine(n, a, c)
    requires a2 == (a * a) % Modulus && c2 == (a * c + c) % Modulus
    ensures Affine(2 * n, a2, c2)
  {
    forall t: nat | t < Modulus
      ensures Iterate(t, 2 * n) == (a2 * t + c2) % Modulus
    {
      IterateAdd(t, n, n);
      var u := Iterate(t, n);
      assert Iterate(u, n) == (a * u + c) % Modulus;
      AffineSquare(a, c, t);
    }
  }

  /** The certificate that 2^47 steps add 2^47: the affine coefficients of
      2^k steps for k = 0 .. 47, each the square of the one before. */
  lemma AffineLeg1()
    requires Affine(0x1, 0x5DEECE66D, 0xB)
    ensures Affine(0x1000, 0x27E7857A4001, 0x698C7F0B9000)
  {
    AffineDoubling(0x1, 0x5DEECE66D, 0xB, 0xBB20B4600A69, 0x40942DE6BA);
    AffineDoubling(0x2, 0xBB20B4600A69, 0x40942DE6BA, 0x32EB772C5F11, 0x2D3873C4CD04);
    AffineDoubling(0x4, 0x32EB772C5F11, 0x2D3873C4CD04, 0x75489F259F21, 0x7CBA449AE648);
    AffineDoubling(0x8, 0x75489F259F21, 0x7CBA449AE648, 0x6DC260740241, 0xD0352014D90);
    AffineDoubling(0x10, 0x6DC260740241, 0xD0352014D90, 0xFAC6CAED1481, 0x1E4C4C311F20);
    AffineDoubling(0x20, 0xFAC6CAED1481, 0x1E4C4C311F20, 0xAB768C7E6901, 0xF77B98004E40);
    AffineDoubling(0x40, 0xAB768C7E6901, 0xF77B98004E40, 0xA430A00DD201, 0x6CC0D398DC80);
    AffineDoubling(0x80, 0xA430A00DD201, 0x6CC0D398DC80, 0x4FA0405FA401, 0xA7A83E92B900);
    AffineDoubling(0x100, 0x4FA0405FA401, 0xA7A83E92B900, 0x94FBA1CF4801, 0x9E1922A97200);
    AffineDoubling(0x200, 0x94FBA1CF4801, 0x9E1922A97200, 0xBA5CC7DE9001, 0xABA71B62E400);
    AffineDoubling(0x400, 0xBA5CC7DE9001, 0xABA71B62E400, 0xBA17A0BD2001, 0xE5B38F05C800);
    AffineDoubling(0x800, 0xBA17A0BD2001, 0xE5B38F05C800, 0x27E7857A4001, 0x698C7F0B9000);
  }

  lemma AffineLeg2()
    requires Affine(0x1000, 0x27E7857A4001, 0x698C7F0B9000)
    ensures Affine(0x1000000, 0x6FD7A4000001, 0x1BD0B9000000)
  {
    AffineDoubling(0x1000, 0x27E7857A4001, 0x698C7F0B9000, 0x10B01AF48001, 0x702E82172000);
    AffineDoubling(0x2000, 0x10B01AF48001, 0x702E82172000, 0xB4E475E90001, 0x78B3142E4000);
    AffineDoubling(0x4000, 0xB4E475E90001, 0x78B3142E4000, 0x37D9EBD20001, 0x72BE685C8000);
    AffineDoubling(0x8000, 0x37D9EBD20001, 0x72BE685C8000, 0xA7F7D7A40001, 0xEADDD0B90000);
    AffineDoubling(0x10000, 0xA7F7D7A40001, 0xEADDD0B90000, 0x30FFAF480001, 0xEB3FA1720000);
    AffineDoubling(0x20000, 0x30FFAF480001, 0xEB3FA1720000, 0xE63F5E900001, 0x2C8F42E40000);
    AffineDoubling(0x40000, 0xE63F5E900001, 0x2C8F42E40000, 0xDD7EBD200001, 0xB15E85C80000);
    AffineDoubling(0x80000, 0xDD7EBD200001, 0xB15E85C80000, 0xFEFD7A400001, 0xC3BD0B900000);
    AffineDoubling(0x100000, 0xFEFD7A400001, 0xC3BD0B900000, 0xDFAF4800001, 0xB7A17200000);
    AffineDoubling(0x200000, 0xDFAF4800001, 0xB7A17200000, 0x5BF5E9000001, 0x26F42E400000);
    AffineDoubling(0x400000, 0x5BF5E9000001, 0x26F42E400000, 0xB7EBD2000001, 0x8DE85C800000);
    AffineDoubling(0x800000, 0xB7EBD2000001, 0x8DE85C800000, 0x6FD7A4000001, 0x1BD0B9000000);
  }

  lemma AffineLeg3()
    requires Affine(0x1000000, 0x6FD7A4000001, 0x1BD0B9000000)
    ensures Affine(0x1000000000, 0x7A4000000001, 0xB9000000000)
  {
    AffineDoubling(0x1000000, 0x6FD7A4000001, 0x1BD0B9000000, 0xDFAF48000001, 0x37A172000000);
    AffineDoubling(0x2000000, 0xDFAF48000001, 0x37A172000000, 0xBF5E90000001, 0x6F42E4000000);
    AffineDoubling(0x4000000, 0xBF5E90000001, 0x6F42E4000000, 0x7EBD20000001, 0xDE85C8000000);
    AffineDoubling(0x8000000, 0x7EBD20000001, 0xDE85C8000000, 0xFD7A40000001, 0xBD0B90000000);
    AffineDoubling(0x10000000, 0xFD7A40000001, 0xBD0B90000000, 0xFAF480000001, 0x7A1720000000);
    AffineDoubling(0x20000000, 0xFAF480000001, 0x7A1720000000, 0xF5E900000001, 0xF42E40000000);
    AffineDoubling(0x40000000, 0xF5E900000001, 0xF42E40000000, 0xEBD200000001, 0xE85C80000000);
    AffineDoubling(0x80000000, 0xEBD200000001, 0xE85C80000000, 0xD7A400000001, 0xD0B900000000);
    AffineDoubling(0x100000000, 0xD7A400000001, 0xD0B900000000, 0xAF4800000001, 0xA17200000000);
    AffineDoubling(0x200000000, 0xAF4800000001, 0xA17200000000, 0x5E9000000001, 0x42E400000000);
    AffineDoubling(0x400000000, 0x5E9000000001, 0x42E400000000, 0xBD2000000001, 0x85C800000000);
    AffineDoubling(0x800000000, 0xBD2000000001, 0x85C800000000, 0x7A4000000001, 0xB9000000000);
  }

  lemma AffineLeg4()
    requires Affine(0x1000000000, 0x7A4000000001, 0xB9000000000)
    ensures Affine(0x800000000000, 0x1, 0x800000000000)
  {
    AffineDoubling(0x1000000000, 0x7A4000000001, 0xB9000000000, 0xF48000000001, 0x172000000000);
    AffineDoubling(0x2000000000, 0xF48000000001, 0x172000000000, 0xE90000000001, 0x2E4000000000);
    AffineDoubling(0x4000000000, 0xE90000000001, 0x2E4000000000, 0xD20000000001, 0x5C8000000000);
    AffineDoubling(0x8000000000, 0xD20000000001, 0x5C8000000000, 0xA40000000001, 0xB90000000000);
    AffineDoubling(0x10000000000, 0xA40000000001, 0xB90000000000, 0x480000000001, 0x720000000000);
    AffineDoubling(0x20000000000, 0x480000000001, 0x720000000000, 0x900000000001, 0xE40000000000);
    AffineDoubling(0x40000000000, 0x900000000001, 0xE40000000000, 0x200000000001, 0xC80000000000);
    AffineDoubling(0x80000000000, 0x200000000001, 0xC80000000000, 0x400000000001, 0x900000000000);
    AffineDoubling(0x100000000000, 0x400000000001, 0x900000000000, 0x800000000001, 0x200000000000);
    AffineDoubling(0x200000000000, 0x800000000001, 0x200000000000, 0x1, 0x400000000000);
    AffineDoubling(0x400000000000, 0x1, 0x400000000000, 0x1, 0x800000000000);
  }

  lemma AffineHalfPeriod()
    ensures Affine(Half, 1, Half)
  {
    AffineOneStep();
    AffineLeg1();
    AffineLeg2();
    AffineLeg3();
    AffineLeg4();
  }

  /** Stepping 2^47 times flips the top bit of the seed and keeps the rest. */
  lemma HalfPeriodShift(s: nat)
    requires s < Modulus
    ensures Iterate(s, Half) == (s + Half) % Modulus
  {
    AffineHalfPeriod();
  }

  /** No run of more than 2^47 consecutive seeds lies in the upper half of the
      seed space. */
  lemma HighRunBound(s0: nat, k: nat)
    requires s0 < Modulus
    requires forall j :: 1 <= j <= k ==> Iterate(s0, j) >= Half
    ensures k <= Half
  {
    if k > Half {
      var x := Iterate(s0, 1);
      IterateAdd(s0, 1, Half);
      HalfPeriodShift(x);
    }
  }
}
