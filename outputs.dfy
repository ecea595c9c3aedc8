/** What each generator operation returns, as a function of the seed it starts
    from. Draw j (j >= 1) of a run that starts from seed s0 is taken from the
    seed after j steps, Iterate(s0, j). */
module Outputs {
  import opened Arith
  import opened Lcg

  /** An unsigned char. */
  newtype byte = b: int | 0 <= b < 256

  /** The draw of `bits` bits taken from the seed after j steps. */
  function DrawAt(s0: nat, j: nat, bits: nat): (r: nat)
    requires s0 < Modulus && 1 <= bits <= 32
    ensures r < Pow2(bits)
    ensures bits == 31 ==> r < Two31
    ensures bits == 32 ==> r < Two32
  {
    Top(Iterate(s0, j), bits)
  }

  /** The first draw from s0 is one step of the recurrence followed by a shift. */
  lemma FirstDraw(s0: nat, bits: nat)
    requires s0 < Modulus && 1 <= bits <= 32
    ensures Iterate(s0, 1) == (s0 * Multiplier + Addend) % Modulus
    ensures DrawAt(s0, 1, bits) == Iterate(s0, 1) / Pow2(48 - bits)
  {
  }

  // ---------------------------------------------------------------- nextInt

  /** The k-th (from 0) value of a run of nextInt calls starting from s0. */
  function IntAt(s0: nat, k: nat): (r: int)
    requires s0 < Modulus
    ensures Int32Min <= r <= Int32Max
  {
    ToInt32(DrawAt(s0, k + 1, 32))
  }

  // ------------------------------------------------------------ nextBoolean

  /** nextBoolean is true exactly when nextInt from the same seed would be
      negative: both read the top bit of the new seed. */
  lemma BooleanIsSignOfInt(s: nat)
    requires s < Modulus
    ensures (Top(s, 1) != 0) <==> ToInt32(Top(s, 32)) < 0
  {
    TopBit(s);
    var u := Top(s, 32);
    if u < Two31 {
      DivModUnique(u, Two31, 0, u);
    } else {
      DivModUnique(u, Two31, 1, u - Two31);
    }
  }

  // ---------------------------------------------------- nextIntb (bounded)

  /** bound & -bound for a non-negative int32 bound: its lowest set bit, 0 for 0. */
  function LowestSetBit(n: nat): (r: nat)
    ensures n > 0 ==> 0 < r <= n
    ensures n == 0 ==> r == 0
  {
    if n == 0 then 0 else if n % 2 == 1 then 1 else 2 * LowestSetBit(n / 2)
  }

  /** The fast-path test (bound & -bound) == bound. */
  predicate IsPowerOfTwoTest(bound: nat)
  {
    LowestSetBit(bound) == bound
  }

  /** The exponent of the highest set bit. */
  function Log2(n: nat): (k: nat)
    requires n > 0
    ensures Pow2(k) <= n < 2 * Pow2(k)
  {
    if n == 1 then 0 else Log2(n / 2) + 1
  }

  /** A number below 2^m has its highest set bit below m. */
  lemma {:induction false} Log2Below(n: nat, m: nat)
    requires 0 < n < Pow2(m)
    ensures Log2(n) < m
  {
    if n > 1 {
      Log2Below(n / 2, m - 1);
    }
  }

  lemma {:induction false} Log2OfPow2(k: nat)
    ensures Log2(Pow2(k)) == k
  {
    if k > 0 {
      Log2OfPow2(k - 1);
      assert Pow2(k) / 2 == Pow2(k - 1);
    }
  }

  /** A positive bound passes the fast-path test exactly when it is a power of two. */
  lemma {:induction false} PowerOfTwoTestExact(n: nat)
    requires n > 0
    ensures IsPowerOfTwoTest(n) <==> n == Pow2(Log2(n))
  {
    if n > 1 {
      PowerOfTwoTestExact(n / 2);
      if n % 2 == 1 {
        assert LowestSetBit(n) == 1;
        assert Pow2(Log2(n)) == 2 * Pow2(Log2(n / 2));
      }
    }
  }

  lemma {:induction false} PowerOfTwoPassesTest(k: nat)
    ensures IsPowerOfTwoTest(Pow2(k))
  {
    if k > 0 {
      PowerOfTwoPassesTest(k - 1);
      assert Pow2(k) % 2 == 0 && Pow2(k) / 2 == Pow2(k - 1);
    }
  }

  /** The loop's test bits - val + (bound - 1) < 0, computed in 32-bit
      two's-complement arithmetic (val = bits % bound). */
  predicate RejectsAsWritten(bits: nat, bound: nat)
    requires 0 < bound
  {
    ToInt32((bits - bits % bound + (bound - 1)) % Two32) < 0
  }

  /** The loop's condition read in exact arithmetic: a draw is accepted when
      bits - val + (bound - 1) does not exceed the int32 range. */
  predicate Accepts(bits: nat, bound: nat)
    requires 0 < bound
  {
    bits - bits % bound + (bound - 1) <= Int32Max
  }

  /** The wrapped sign test rejects exactly the draws whose exact sum overflows. */
  lemma RejectsAsWrittenExact(bits: nat, bound: nat)
    requires 0 < bound <= Int32Max && bits < Two31
    ensures RejectsAsWritten(bits, bound) <==> !Accepts(bits, bound)
  {
    var t := bits - bits % bound + (bound - 1);
    assert 0 <= t < Two32;
    DivModUnique(t, Two32, 0, t);
  }

  /** Accepted draws are exactly those below the largest multiple of bound
      that does not exceed 2^31: the rejection removes the modulo bias. */
  lemma AcceptsBelowLimit(bits: nat, bound: nat)
    requires 0 < bound <= Int32Max && bits < Two31
    ensures Accepts(bits, bound) <==> bits < bound * (Two31 / bound)
  {
    var q := bits / bound;
    assert bits - bits % bound + (bound - 1) == (q + 1) * bound - 1;
    MulBelowIff(q + 1, bound, Two31);
    BelowMulIff(bits, bound, Two31 / bound);
  }

  /** A rejected draw has its top bit set. */
  lemma RejectedDrawIsHigh(bits: nat, bound: nat)
    requires 0 < bound <= Int32Max && bits < Two31
    requires !Accepts(bits, bound)
    ensures bits >= 0x4000_0000
  {
    if bits < bound {
      DivModUnique(bits, bound, 0, bits);
    }
  }

  /** A 31-bit draw with its top bit set comes from a seed in the upper half. */
  lemma HighDrawHighSeed(s: nat)
    requires s < Modulus && Top(s, 31) >= 0x4000_0000
    ensures s >= Half
  {
    Pow2Values();
    assert 48 - 31 == 17;
    assert s / 0x2_0000 >= 0x4000_0000;
  }

  /** No rejection loop draws more than 2^47 rejected values in a row: the loop
      of nextIntb always ends, for every seed and every bound. */
  lemma RejectionRunBound(s0: nat, bound: nat, k: nat)
    requires s0 < Modulus && 0 < bound <= Int32Max
    requires forall j :: 1 <= j <= k ==> !Accepts(DrawAt(s0, j, 31), bound)
    ensures k <= Half
  {
    Pow2Values();
    forall j | 1 <= j <= k
      ensures Iterate(s0, j) >= Half
    {
      RejectedDrawIsHigh(DrawAt(s0, j, 31), bound);
      HighDrawHighSeed(Iterate(s0, j));
    }
    HighRunBound(s0, k);
  }

  /** The index of the first accepted draw at or after draw k, given that every
      draw before k was rejected. */
  function FirstAccepted(s0: nat, bound: nat, k: nat): (n: nat)
    requires s0 < Modulus && 0 < bound <= Int32Max && 1 <= k
    requires forall j :: 1 <= j < k ==> !Accepts(DrawAt(s0, j, 31), bound)
    ensures k <= n && Accepts(DrawAt(s0, n, 31), bound)
    ensures forall j :: 1 <= j < n ==> !Accepts(DrawAt(s0, j, 31), bound)
    decreases Half + 1 - k
  {
    if Accepts(DrawAt(s0, k, 31), bound) then k
    else
      RejectionRunBound(s0, bound, k);
      FirstAccepted(s0, bound, k + 1)
  }

  /** The first accepted draw is the only draw accepted after a run of rejections. */
  lemma FirstAcceptedUnique(s0: nat, bound: nat, n: nat)
    requires s0 < Modulus && 0 < bound <= Int32Max && 1 <= n
    requires Accepts(DrawAt(s0, n, 31), bound)
    requires forall j :: 1 <= j < n ==> !Accepts(DrawAt(s0, j, 31), bound)
    ensures FirstAccepted(s0, bound, 1) == n
  {
    var m := FirstAccepted(s0, bound, 1);
    if m != n {
      assert false;
    }
  }

  /** The fast path of nextIntb for a bound that passes the power-of-two
      test: with bound = 2^k, (bound * next(31)) >> 31 keeps the top k bits of
      the 31-bit draw, that is next(31) >> (31 - k); a bound of 0 gives 0.
      FastPathScales shows this is the product form. */
  function FastPathValue(s0: nat, bound: nat): (r: int)
    requires s0 < Modulus && bound <= Int32Max && IsPowerOfTwoTest(bound)
    ensures bound > 0 ==> 0 <= r < bound
    ensures bound == 0 ==> r == 0
  {
    if bound == 0 then 0
    else
      var k := FastPathExponent(bound);
      var b := DrawAt(s0, 1, 31);
      ShiftedDrawBelow(b, k);
      ShiftRight(b, 31 - k)
  }

  /** A 31-bit draw shifted right by 31 - k has k bits left. */
  lemma ShiftedDrawBelow(b: nat, k: nat)
    requires b < Two31 && k <= 30
    ensures ShiftRight(b, 31 - k) < Pow2(k)
  {
    ShiftRightIsDivision(b, 31 - k);
    Pow2Add(31 - k, k);
    Pow2Values();
    DivBelow(b, Pow2(31 - k), Pow2(k));
  }

  /** The exponent k of a bound 2^k that passes the fast-path test. */
  function FastPathExponent(bound: nat): (k: nat)
    requires 0 < bound <= Int32Max && IsPowerOfTwoTest(bound)
    ensures k <= 30 && bound == Pow2(k)
  {
    PowerOfTwoTestExact(bound);
    Pow2Values();
    Log2Below(bound, 31);
    Log2(bound)
  }

  /** The fast path is the source's product form (bound * next(31)) >> 31. */
  lemma FastPathScales(s0: nat, bound: nat)
    requires s0 < Modulus && bound <= Int32Max && IsPowerOfTwoTest(bound)
    ensures FastPathValue(s0, bound) == (bound * DrawAt(s0, 1, 31)) / Two31
  {
    if bound > 0 {
      ShiftIsScaling(DrawAt(s0, 1, 31), FastPathExponent(bound));
    }
  }

  /** Multiplying by 2^k and shifting right by 31 is shifting right by 31 - k. */
  lemma ShiftIsScaling(b: nat, k: nat)
    requires k <= 30
    ensures ShiftRight(b, 31 - k) == (Pow2(k) * b) / Two31
  {
    ShiftRightIsDivision(b, 31 - k);
    Pow2Add(k, 31 - k);
    Pow2Values();
    DivCancel(Pow2(k), b, Pow2(31 - k));
  }

  /** nextIntb(bound) from seed s0: the value and the number of draws it consumes.
      A bound of 0 passes the power-of-two test (0 & -0 == 0) and yields 0. */
  function BoundedNext(s0: nat, bound: nat): (r: (int, nat))
    requires s0 < Modulus && bound <= Int32Max
    ensures 1 <= r.1
    ensures bound > 0 ==> 0 <= r.0 < bound
    ensures bound == 0 ==> r.0 == 0
    ensures IsPowerOfTwoTest(bound) ==> r.1 == 1
    ensures !IsPowerOfTwoTest(bound) ==>
      && Accepts(DrawAt(s0, r.1, 31), bound)
      && r.0 == DrawAt(s0, r.1, 31) % bound
      && forall j :: 1 <= j < r.1 ==> !Accepts(DrawAt(s0, j, 31), bound)
  {
    if IsPowerOfTwoTest(bound) then (FastPathValue(s0, bound), 1)
    else
      var n := FirstAccepted(s0, bound, 1);
      (DrawAt(s0, n, 31) % bound, n)
  }

  /** The fast path's value, for a bound that passes the power-of-two test. */
  lemma BoundedNextFastPath(s0: nat, bound: nat)
    requires s0 < Modulus && bound <= Int32Max && IsPowerOfTwoTest(bound)
    ensures BoundedNext(s0, bound) == ((bound * DrawAt(s0, 1, 31)) / Two31, 1)
    ensures BoundedNext(s0, bound) == (FastPathValue(s0, bound), 1)
  {
    FastPathScales(s0, bound);
  }

  /** The rejection path's value: the first accepted draw modulo the bound. */
  lemma BoundedNextRejection(s0: nat, bound: nat, n: nat)
    requires s0 < Modulus && 0 < bound <= Int32Max && !IsPowerOfTwoTest(bound) && 1 <= n
    requires Accepts(DrawAt(s0, n, 31), bound)
    requires forall j :: 1 <= j < n ==> !Accepts(DrawAt(s0, j, 31), bound)
    ensures BoundedNext(s0, bound) == (DrawAt(s0, n, 31) % bound, n)
  {
    FirstAcceptedUnique(s0, bound, n);
  }

  /** For a power-of-two bound 2^k the fast path returns the top k bits of the
      new seed, with a single draw. */
  lemma PowerOfTwoFastPath(s0: nat, k: nat)
    requires s0 < Modulus && 1 <= k <= 30
    ensures Pow2(k) <= Int32Max
    ensures BoundedNext(s0, Pow2(k)) == (Top(Iterate(s0, 1), k), 1)
  {
    Pow2Values();
    Pow2Monotone(k, 30);
    PowerOfTwoPassesTest(k);
    Log2OfPow2(k);
    var x := Iterate(s0, 1);
    assert FastPathExponent(Pow2(k)) == k;
    ShiftRightIsDivision(Top(x, 31), 31 - k);
    DivDiv(x, Pow2(17), Pow2(31 - k));
    Pow2Add(17, 31 - k);
  }

  /** The seed after k successive nextIntb(bound) calls from s0: the first
      call moves s0 on by its number of draws, and the remaining k - 1 calls
      start from there. */
  function RunSeed(s0: nat, k: nat, bound: nat): (r: nat)
    requires s0 < Modulus && bound <= Int32Max
    ensures r < Modulus
    decreases k
  {
    if k == 0 then s0
    else RunSeed(Iterate(s0, BoundedNext(s0, bound).1), k - 1, bound)
  }

  /** The k-th (from 0) value of successive nextIntb(bound) calls from s0. */
  function BoundedAt(s0: nat, k: nat, bound: nat): (r: int)
    requires s0 < Modulus && bound <= Int32Max
    ensures bound > 0 ==> 0 <= r < bound
    ensures bound == 0 ==> r == 0
    decreases k
  {
    var (v, n) := BoundedNext(s0, bound);
    if k == 0 then v else BoundedAt(Iterate(s0, n), k - 1, bound)
  }

  /** Call k + 1 of a run is one more call from the seed the first k calls
      leave: the run can be extended at its end, as a loop does. */
  lemma {:induction false} RunSeedStep(s0: nat, k: nat, bound: nat)
    requires s0 < Modulus && bound <= Int32Max
    ensures RunSeed(s0, k + 1, bound) == Iterate(RunSeed(s0, k, bound), BoundedNext(RunSeed(s0, k, bound), bound).1)
    ensures BoundedAt(s0, k, bound) == BoundedNext(RunSeed(s0, k, bound), bound).0
    decreases k
  {
    if k > 0 {
      RunSeedStep(Iterate(s0, BoundedNext(s0, bound).1), k - 1, bound);
    }
  }

  /** The number of draws k successive nextIntb(bound) calls consume: at least
      one per call, and the run's seed is the recurrence that many steps on. */
  function RunDraws(s0: nat, k: nat, bound: nat): (r: nat)
    requires s0 < Modulus && bound <= Int32Max
    ensures k <= r
    ensures RunSeed(s0, k, bound) == Iterate(s0, r)
    decreases k
  {
    if k == 0 then 0
    else
      var n := BoundedNext(s0, bound).1;
      var rest := RunDraws(Iterate(s0, n), k - 1, bound);
      IterateAdd(s0, n, rest);
      n + rest
  }

  // --------------------------------------------------------------- nextLong

  /** nextLong as include/Random.h writes it: the second 32-bit draw is ORed in
      unsigned, (int64_t)(((uint64_t)hi << 32) | lo). The OR of disjoint bit
      ranges is their sum. */
  function LongAsWritten(hi: nat, lo: nat): (r: int)
    requires hi < Two32 && lo < Two32
    ensures Int64Min <= r <= Int64Max
  {
    ToInt64(hi * Two32 + lo)
  }

  /** nextLong as java.util.Random defines it: ((long)next(32) << 32) + next(32),
      where next(32) is a signed int and the long sum wraps modulo 2^64. */
  function LongFromDraws(hi: nat, lo: nat): (r: int)
    requires hi < Two32 && lo < Two32
    ensures Int64Min <= r <= Int64Max
    ensures (r - (ToInt32(hi) * Two32 + ToInt32(lo))) % Two64 == 0
  {
    ToInt64((ToInt32(hi) * Two32 + ToInt32(lo)) % Two64)
  }

  /** The two readings agree exactly when the second draw has its top bit clear. */
  lemma LongReadingsAgreeIff(hi: nat, lo: nat)
    requires hi < Two32 && lo < Two32
    ensures LongAsWritten(hi, lo) == LongFromDraws(hi, lo) <==> lo <= Int32Max
  {
    if lo <= Int32Max {
      LongReadingsAgree(hi, lo);
    } else {
      LongReadingsDiffer(hi, lo);
    }
  }

  /** The signed high half: hi * 2^32 less 2^64 when hi has its top bit set. */
  lemma HighHalf(hi: nat) returns (w: int)
    requires hi < Two32
    ensures w == 0 || w == 1
    ensures ToInt32(hi) * Two32 == hi * Two32 - w * Two64
    ensures hi * Two32 + Two32 <= Two64
  {
    MulLeft(hi, Two32 - 1, Two32);
    w := if hi <= Int32Max then 0 else 1;
  }

  /** With the second draw's top bit clear, both readings give the same long. */
  lemma LongReadingsAgree(hi: nat, lo: nat)
    requires hi < Two32 && lo <= Int32Max
    ensures LongAsWritten(hi, lo) == LongFromDraws(hi, lo)
  {
    var w := HighHalf(hi);
    var u := hi * Two32 + lo;
    LongSumLowClear(u, ToInt32(hi) * Two32 + lo, w);
  }

  /** With the second draw's top bit set, the readings give different longs. */
  lemma LongReadingsDiffer(hi: nat, lo: nat)
    requires hi < Two32 && Int32Max < lo < Two32
    ensures LongAsWritten(hi, lo) != LongFromDraws(hi, lo)
  {
    var w := HighHalf(hi);
    var u := hi * Two32 + lo;
    DivModUnique(u, Two32, hi, lo);
    LongSumLowSet(u, ToInt32(hi) * Two32 + (lo - Two32), w);
  }

  /** With the second draw's top bit clear, the signed sum wraps to the unsigned OR. */
  lemma LongSumLowClear(u: int, v: int, w: int)
    requires 0 <= u < Two64 && v == u - w * Two64
    ensures ToInt64(v % Two64) == ToInt64(u)
  {
    ModAddMultiple(u, -w, Two64);
    DivModUnique(u, Two64, 0, u);
  }

  /** With the second draw's top bit set, the signed sum is 2^32 below the
      unsigned OR modulo 2^64, so the two int64 readings differ. */
  lemma LongSumLowSet(u: int, v: int, w: int)
    requires 0 <= u < Two64 && u % Two32 >= Two31 && v == u - Two32 - w * Two64
    ensures ToInt64(v % Two64) != ToInt64(u)
  {
    ModAddMultiple(u - Two32, -w, Two64);
    var r := (u - Two32) % Two64;
    if u >= Two32 {
      DivModUnique(u - Two32, Two64, 0, u - Two32);
    } else {
      DivModUnique(u - Two32, Two64, -1, u - Two32 + Two64);
    }
    assert r != u;
  }

  /** setSeed(0) leaves the multiplier itself as the seed. */
  lemma ScrambleZero()
    ensures Scramble(0) == Multiplier
  {
    XorZeroLeft(Multiplier);
  }

  /** The seeds after one and two steps from the seed setSeed(0) leaves. */
  lemma SeedZeroSteps()
    ensures Iterate(Multiplier, 1) == 205749139540596
    ensures Iterate(Multiplier, 2) == 234029835660143
  {
  }

  /** The first two 32-bit draws after setSeed(0). */
  lemma SeedZeroDraws()
    ensures DrawAt(Scramble(0), 1, 32) == 3139482720
    ensures DrawAt(Scramble(0), 2, 32) == 3571011896
  {
    ScrambleZero();
    SeedZeroSteps();
    Pow2Values();
    assert DrawAt(Scramble(0), 1, 32) == 205749139540596 / Pow2(16);
    assert DrawAt(Scramble(0), 2, 32) == 234029835660143 / Pow2(16);
  }

  /** Seeding with setSeed(0) and drawing a nextLong: the value each reading
      makes of the two draws. The second draw has its top bit set, so the
      unsigned OR gives a value 2^32 greater than java.util.Random's. */
  lemma NextLongAfterSeedZero()
    ensures LongFromDraws(DrawAt(Scramble(0), 1, 32), DrawAt(Scramble(0), 2, 32)) == -4962768465676381896
    ensures LongAsWritten(DrawAt(Scramble(0), 1, 32), DrawAt(Scramble(0), 2, 32)) == -4962768461381414600
  {
    SeedZeroDraws();
    LongFromSeedZeroDraws();
    LongAsWrittenSeedZeroDraws();
  }

  lemma LongFromSeedZeroDraws()
    ensures LongFromDraws(3139482720, 3571011896) == -4962768465676381896
  {
    assert ToInt32(3139482720) == -1155484576 && ToInt32(3571011896) == -723955400;
    var v := -1155484576 * Two32 + -723955400;
    assert v == -4962768465676381896;
    DivModUnique(v, Two64, -1, 13483975608033169720);
  }

  lemma LongAsWrittenSeedZeroDraws()
    ensures LongAsWritten(3139482720, 3571011896) == -4962768461381414600
  {
    assert 3139482720 * Two32 + 3571011896 == 13483975612328137016;
  }

  /** C does not fix which operand of the OR at include/Random.h:132 is
      evaluated first. If the second call's draw lands in the high half, the
      header's reading of setSeed(0) then nextLong is yet another value, again
      not java.util.Random's. */
  lemma NextLongAfterSeedZeroSwapped()
    ensures LongAsWritten(DrawAt(Scramble(0), 2, 32), DrawAt(Scramble(0), 1, 32)) == -3109364763623115680
  {
    SeedZeroDraws();
    assert 3571011896 * Two32 + 3139482720 == 15337379310086435936;
  }

  // ------------------------------------------------------- nextFloat/Double

  /** The 24-bit numerator of nextFloat: the first 24-bit draw. */
  function FloatNumerator(s0: nat): (r: nat)
    requires s0 < Modulus
    ensures r < 0x100_0000
  {
    Pow2Values();
    DrawAt(s0, 1, 24)
  }

  /** The 53-bit numerator of nextDouble, (next(26) << 27) | next(27): the two
      draws occupy disjoint bit ranges, so the OR is their sum and both draws
      can be read back from it. */
  function DoubleNumerator(s0: nat): (r: nat)
    requires s0 < Modulus
    ensures r < 0x20_0000_0000_0000
    ensures r / 0x800_0000 == DrawAt(s0, 1, 26) && r % 0x800_0000 == DrawAt(s0, 2, 27)
  {
    var a, b := DrawAt(s0, 1, 26), DrawAt(s0, 2, 27);
    Pow2Values();
    DivModUnique(a * 0x800_0000 + b, 0x800_0000, a, b);
    a * 0x800_0000 + b
  }

  /** nextFloat from seed s0, as the exact real the float holds: the 24-bit
      numerator over 2^24, so a value in [0, 1) on the grid of step 2^-24. */
  function FloatAt(s0: nat): (r: real)
    requires s0 < Modulus
    ensures 0.0 <= r < 1.0
    ensures r * 16777216.0 == FloatNumerator(s0) as real
  {
    FractionBelowOne(FloatNumerator(s0), 0x100_0000);
    FloatNumerator(s0) as real / 16777216.0
  }

  /** nextDouble from seed s0, as the exact real the double holds: the 53-bit
      numerator over 2^53, so a value in [0, 1) on the grid of step 2^-53. */
  function DoubleAt(s0: nat): (r: real)
    requires s0 < Modulus
    ensures 0.0 <= r < 1.0
    ensures r * 9007199254740992.0 == DoubleNumerator(s0) as real
  {
    FractionBelowOne(DoubleNumerator(s0), 0x20_0000_0000_0000);
    DoubleNumerator(s0) as real / 9007199254740992.0
  }

  // -------------------------------------------------------------- nextBytes

  /** v >> (8 * j) for a signed v, an arithmetic shift: the floor of v / 2^(8j). */
  function ShiftBytes(v: int, j: nat): (r: int)
    requires j <= 4
    ensures r == v / Pow2(8 * j)
  {
    BytePower(j);
    if j == 0 then v
    else if j == 1 then v / 0x100
    else if j == 2 then v / 0x1_0000
    else if j == 3 then v / 0x100_0000
    else v / 0x1_0000_0000
  }

  /** The divisor of a shift by j bytes. */
  lemma BytePower(j: nat)
    requires j <= 4
    ensures Pow2(8 * j) == if j == 0 then 1 else if j == 1 then 0x100 else if j == 2 then 0x1_0000
      else if j == 3 then 0x100_0000 else 0x1_0000_0000
  {
    Pow2Values();
    if j == 0 {
      assert 8 * j == 0;
    } else if j == 1 {
      assert 8 * j == 8;
    } else if j == 2 {
      assert 8 * j == 16;
    } else if j == 3 {
      assert 8 * j == 24;
    } else {
      assert 8 * j == 32;
    }
  }

  /** Shifting by 8 * j and then by 8 more is shifting by 8 * (j + 1). */
  lemma ShiftBytesStep(v: int, j: nat)
    requires j < 4
    ensures ShiftBytes(v, j) / 256 == ShiftBytes(v, j + 1)
  {
    if j == 1 {
      DivDiv(v, 0x100, 0x100);
    } else if j == 2 {
      DivDiv(v, 0x1_0000, 0x100);
    } else if j == 3 {
      DivDiv(v, 0x100_0000, 0x100);
    }
  }

  /** Byte j (from 0) that nextBytes takes from the nextInt value v: the low
      eight bits of v >> (8 * j). */
  function ByteOf(v: int, j: nat): (b: byte)
    requires j < 4
  {
    (ShiftBytes(v, j) % 256) as byte
  }

  /** Removing 2^32 from u does not change the low byte of u / p when p * 256
      divides 2^32. */
  lemma WrapKeepsByte(u: int, p: int, m: int)
    requires p > 0 && m >= 0 && Two32 == p * 256 * m
    ensures ((u - Two32) / p) % 256 == (u / p) % 256
  {
    assert u - Two32 == (u / p - 256 * m) * p + u % p;
    DivModUnique(u - Two32, p, u / p - 256 * m, u % p);
    ModAddMultiple(u / p, -m, 256);
  }

  /** Byte j of a nextInt value is byte j, least significant first, of the
      unsigned 32-bit draw it was read from. */
  lemma ByteOfUnsigned(u: nat, j: nat)
    requires u < Two32 && j < 4
    ensures ByteOf(ToInt32(u), j) as int == ShiftBytes(u, j) % 256
  {
    if u > Int32Max {
      if j == 0 {
        WrapKeepsByte(u, 1, 0x100_0000);
      } else if j == 1 {
        WrapKeepsByte(u, 0x100, 0x1_0000);
      } else if j == 2 {
        WrapKeepsByte(u, 0x1_0000, 0x100);
      } else {
        WrapKeepsByte(u, 0x100_0000, 1);
      }
    }
  }

  /** Reassembling the four bytes of a chunk, least significant first, gives
      back the unsigned 32-bit draw: nextBytes loses nothing of a full chunk. */
  lemma ChunkRoundTrip(s0: nat, c: nat)
    requires s0 < Modulus
    ensures ByteOf(IntAt(s0, c), 0) as int + 0x100 * ByteOf(IntAt(s0, c), 1) as int
          + 0x1_0000 * ByteOf(IntAt(s0, c), 2) as int + 0x100_0000 * ByteOf(IntAt(s0, c), 3) as int
         == DrawAt(s0, c + 1, 32)
  {
    var u := DrawAt(s0, c + 1, 32);
    ByteOfUnsigned(u, 0);
    ByteOfUnsigned(u, 1);
    ByteOfUnsigned(u, 2);
    ByteOfUnsigned(u, 3);
    DivDiv(u, 0x100, 0x100);
    DivDiv(u, 0x1_0000, 0x100);
    var u1, u2, u3 := u / 0x100, u / 0x1_0000, u / 0x100_0000;
    assert u == u1 * 0x100 + u % 0x100;
    assert u1 == u2 * 0x100 + u1 % 0x100;
    assert u2 == u3 * 0x100 + u2 % 0x100;
    assert u3 < 0x100;
    DivModUnique(u3, 0x100, 0, u3);
  }

  /** Byte i of a nextBytes fill that starts from s0: byte i mod 4, least
      significant first, of the 32-bit draw that nextInt number i / 4 reads. */
  function ByteAt(s0: nat, i: nat): (b: byte)
    requires s0 < Modulus
    ensures b as int == ShiftBytes(DrawAt(s0, i / 4 + 1, 32), i % 4) % 256
  {
    ByteOfUnsigned(DrawAt(s0, i / 4 + 1, 32), i % 4);
    ByteOf(IntAt(s0, i / 4), i % 4)
  }
}
