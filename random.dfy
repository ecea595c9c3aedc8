/** The generator instance of include/Random.h and its operations, each proved
    against the functions of Outputs on the seed it starts from. */
module RandomGen {
  import opened Arith
  import opened Lcg
  import opened Outputs

  /** An instance returned by Random_new. */
  class Random {
    /** The 48-bit state. */
    var seed: nat
    /** Whether Random_seed or Random_setSeed has initialised the instance; until
        then the first draw initialises it as Random_seed would. */
    var seeded: bool
    /** The exposition-only flag of the Gaussian generator. */
    var haveNextNextGaussian: bool
    /** The seed Random_seed would give this instance when it first draws
        without having been seeded; how it is chosen is unspecified. */
    const autoSeed: nat

    ghost predicate Valid()
      reads this
    {
      seed < Modulus && autoSeed < Modulus && (!seeded ==> !haveNextNextGaussian)
    }

    /** The seed the next draw advances from. */
    ghost function Current(): (s: nat)
      reads this
      requires Valid()
      ensures s < Modulus
      ensures seeded ==> s == seed
    {
      if seeded then seed else autoSeed
    }

    /** Random_new: an instance that has not been seeded yet. */
    constructor (unique: nat)
      requires unique < Modulus
      ensures Valid() && !seeded && !haveNextNextGaussian
      ensures autoSeed == unique && Current() == unique
    {
      seed := 0;
      seeded := false;
      haveNextNextGaussian := false;
      autoSeed := unique;
    }

    /** Random_seed: seeds the instance with a value chosen by the caller's
        source of unique seeds, and clears haveNextNextGaussian. */
    method Seed(unique: nat)
      requires Valid() && unique < Modulus
      modifies this
      ensures Valid() && seeded && !haveNextNextGaussian
      ensures seed == unique
    {
      seed := unique;
      seeded := true;
      haveNextNextGaussian := false;
    }

    /** Random_setSeed: seed := (s ^ 0x5DEECE66D) & (2^48 - 1), and clears
        haveNextNextGaussian. Two arguments give the same state exactly when
        they agree in their low 48 bits. */
    method SetSeed(s: nat)
      requires Valid() && s < Two64
      modifies this
      ensures Valid() && seeded && !haveNextNextGaussian
      ensures seed == Scramble(s)
      ensures forall t: nat :: t < Two64 ==> (seed == Scramble(t) <==> t % Modulus == s % Modulus)
    {
      seed := Xor(s, Multiplier) % Modulus;
      seeded := true;
      haveNextNextGaussian := false;
      forall t: nat | t < Two64
        ensures seed == Scramble(t) <==> t % Modulus == s % Modulus
      {
        ScrambleInjective(s, t);
      }
    }

    /** The exposition-only Random_next: one step of the recurrence, then the
        top `bits` bits of the new seed. An unseeded instance is seeded first. */
    method Next(bits: nat) returns (r: nat)
      requires Valid() && 1 <= bits <= 32
      modifies this
      ensures Valid() && seeded && haveNextNextGaussian == old(haveNextNextGaussian)
      ensures seed == Iterate(old(Current()), 1)
      ensures r == DrawAt(old(Current()), 1, bits)
    {
      ghost var s0 := Current();
      if !seeded {
        seed := autoSeed;
        seeded := true;
      }
      FirstDraw(s0, bits);
      seed := (seed * Multiplier + Addend) % Modulus;
      r := seed / Pow2(48 - bits);
    }

    /** Random_nextInt: the 32-bit draw read as a signed int32_t. */
    method NextInt() returns (r: int)
      requires Valid()
      modifies this
      ensures Valid() && seeded && haveNextNextGaussian == old(haveNextNextGaussian)
      ensures seed == Iterate(old(Current()), 1)
      ensures r == IntAt(old(Current()), 0)
    {
      var u := Next(32);
      r := ToInt32(u);
    }

    /** One pass of Random_nextBytes's outer loop, chunk c of a fill that
        started from seed s0: a fresh nextInt spread over out[i..i + n). */
    method FillChunk(out: array<byte>, i: nat, n: nat, ghost s0: nat, ghost c: nat)
      requires Valid() && s0 < Modulus && Current() == Iterate(s0, c)
      requires i == 4 * c && i + n <= out.Length && 1 <= n <= 4
      modifies this, out
      ensures Valid() && seeded && haveNextNextGaussian == old(haveNextNextGaussian)
      ensures Current() == Iterate(s0, c + 1)
      ensures forall k :: i <= k < i + n ==> out[k] == ByteAt(s0, k)
      ensures forall k :: 0 <= k < out.Length && !(i <= k < i + n) ==> out[k] == old(out[k])
    {
      ChunkStep(s0, c);
      var rnd := NextInt();
      StoreBytes(out, i, n, rnd);
      ChunkBytes(s0, i, c, n);
    }

    /** Random_nextIntb: a value in [0, bound) by the power-of-two fast path or
        the rejection loop; a bound of 0 takes the fast path and yields 0. */
    method NextIntb(bound: int) returns (r: int)
      requires Valid() && 0 <= bound <= Int32Max
      modifies this
      ensures Valid() && seeded && haveNextNextGaussian == old(haveNextNextGaussian)
      ensures r == BoundedNext(old(Current()), bound).0
      ensures seed == Iterate(old(Current()), BoundedNext(old(Current()), bound).1)
      ensures bound > 0 ==> 0 <= r < bound
    {
      ghost var s0 := Current();
      if IsPowerOfTwoTest(bound) {
        var b := Next(31);
        r := (bound * b) / Two31;
        BoundedNextFastPath(s0, bound);
      } else {
        var bits := Next(31);
        var val := bits % bound;
        ghost var draws: nat := 1;
        while RejectsAsWritten(bits, bound)
          invariant Valid() && seeded && haveNextNextGaussian == old(haveNextNextGaussian)
          invariant 1 <= draws && seed == Iterate(s0, draws)
          invariant bits == DrawAt(s0, draws, 31) && val == bits % bound
          invariant forall j :: 1 <= j < draws ==> !Accepts(DrawAt(s0, j, 31), bound)
          decreases Half + 1 - draws
        {
          RejectsAsWrittenExact(bits, bound);
          RejectionRunBound(s0, bound, draws);
          bits := Next(31);
          assert seed == Iterate(s0, draws + 1);
          val := bits % bound;
          draws := draws + 1;
        }
        RejectsAsWrittenExact(bits, bound);
        BoundedNextRejection(s0, bound, draws);
        r := val;
      }
    }

    /** Random_nextLong, as java.util.Random defines it: the first 32-bit draw
        shifted up by 32 plus the second read as a signed int. */
    method NextLong() returns (r: int)
      requires Valid()
      modifies this
      ensures Valid() && seeded && haveNextNextGaussian == old(haveNextNextGaussian)
      ensures seed == Iterate(old(Current()), 2)
      ensures r == LongFromDraws(DrawAt(old(Current()), 1, 32), DrawAt(old(Current()), 2, 32))
      ensures Int64Min <= r <= Int64Max
    {
      ghost var s0 := Current();
      var hi := Next(32);
      assert seed == Iterate(s0, 1);
      var lo := Next(32);
      assert seed == Iterate(s0, 2);
      r := LongFromDraws(hi, lo);
    }

    /** Random_nextBoolean: whether the 1-bit draw is non-zero, which is whether
        nextInt from the same state would have been negative. */
    method NextBoolean() returns (r: bool)
      requires Valid()
      modifies this
      ensures Valid() && seeded && haveNextNextGaussian == old(haveNextNextGaussian)
      ensures seed == Iterate(old(Current()), 1)
      ensures r <==> IntAt(old(Current()), 0) < 0
    {
      var b := Next(1);
      r := b != 0;
      BooleanIsSignOfInt(seed);
    }

    /** Random_nextFloat: the 24-bit draw over 2^24, a value in [0, 1). */
    method NextFloat() returns (r: real)
      requires Valid()
      modifies this
      ensures Valid() && seeded && haveNextNextGaussian == old(haveNextNextGaussian)
      ensures seed == Iterate(old(Current()), 1)
      ensures r == FloatAt(old(Current()))
    {
      var b := Next(24);
      r := b as real / 16777216.0;
    }

    /** Random_nextDouble: (next(26) << 27 | next(27)) over 2^53, a value in [0, 1). */
    method NextDouble() returns (r: real)
      requires Valid()
      modifies this
      ensures Valid() && seeded && haveNextNextGaussian == old(haveNextNextGaussian)
      ensures seed == Iterate(old(Current()), 2)
      ensures r == DoubleAt(old(Current()))
    {
      ghost var s0 := Current();
      var a := Next(26);
      assert seed == Iterate(s0, 1) && a == DrawAt(s0, 1, 26);
      var b := Next(27);
      assert seed == Iterate(s0, 2) && b == DrawAt(s0, 2, 27);
      var numerator := a * 0x800_0000 + b;
      assert numerator == DoubleNumerator(s0);
      r := numerator as real / 9007199254740992.0;
    }

    /** Random_nextBytes: fills out[0..size) from successive nextInt values,
        four bytes per value, least significant first; the last value
        contributes only the bytes still needed. */
    method NextBytes(out: array<byte>, size: nat)
      requires Valid() && size <= out.Length
      modifies this, out
      ensures Valid() && haveNextNextGaussian == old(haveNextNextGaussian)
      ensures seeded == (old(seeded) || size > 0)
      ensures Current() == Iterate(old(Current()), (size + 3) / 4)
      ensures forall k :: 0 <= k < size ==> out[k] == ByteAt(old(Current()), k)
      ensures forall k :: size <= k < out.Length ==> out[k] == old(out[k])
    {
      ghost var s0 := Current();
      var i := 0;
      ghost var c := 0;
      while i < size
        invariant 0 <= i <= size && c == (i + 3) / 4 && (i == size || i == 4 * c)
        invariant Valid() && haveNextNextGaussian == old(haveNextNextGaussian)
        invariant seeded == (old(seeded) || i > 0)
        invariant Current() == Iterate(s0, c)
        invariant forall k :: 0 <= k < i ==> out[k] == ByteAt(s0, k)
        invariant forall k :: i <= k < out.Length ==> out[k] == old(out[k])
      {
        var n := if size - i < 4 then size - i else 4;
        FillChunk(out, i, n, s0, c);
        ChunkCount(i + n, c, n);
        i := i + n;
        c := c + 1;
      }
      assert i == size;
    }

    /** Random_ints: len successive nextInt values into out[0..len). */
    method Ints(out: array<int>, len: nat)
      requires Valid() && len <= out.Length
      modifies this, out
      ensures Valid() && haveNextNextGaussian == old(haveNextNextGaussian)
      ensures seeded == (old(seeded) || len > 0)
      ensures Current() == Iterate(old(Current()), len)
      ensures forall k :: 0 <= k < len ==> out[k] == IntAt(old(Current()), k)
      ensures forall k :: len <= k < out.Length ==> out[k] == old(out[k])
    {
      ghost var s0 := Current();
      var k := 0;
      while k < len
        invariant 0 <= k <= len
        invariant Valid() && haveNextNextGaussian == old(haveNextNextGaussian)
        invariant seeded == (old(seeded) || k > 0)
        invariant Current() == Iterate(s0, k)
        invariant forall m :: 0 <= m < k ==> out[m] == IntAt(s0, m)
        invariant forall m :: k <= m < out.Length ==> out[m] == old(out[m])
      {
        IterateAdd(s0, k, 1);
        out[k] := NextInt();
        k := k + 1;
      }
    }

    /** One pass of Random_intsb's loop, element k of a run that started
        from seed s0: out[k] := min + nextIntb(bound). */
    method FillBounded(out: array<int>, k: nat, bound: int, min: int, ghost s0: nat)
      requires Valid() && s0 < Modulus && k < out.Length && 0 <= bound <= Int32Max
      requires Current() == RunSeed(s0, k, bound)
      modifies this, out
      ensures Valid() && seeded && haveNextNextGaussian == old(haveNextNextGaussian)
      ensures Current() == RunSeed(s0, k + 1, bound)
      ensures out[k] == BoundedAt(s0, k, bound) + min
      ensures forall m :: 0 <= m < out.Length && m != k ==> out[m] == old(out[m])
    {
      RunSeedStep(s0, k, bound);
      var v := NextIntb(bound);
      out[k] := v + min;
    }

    /** Random_intsb: len values of nextIntb(max - min) + min into out[0..len). */
    method Intsb(out: array<int>, len: nat, min: int, max: int)
      requires Valid() && len <= out.Length
      requires Int32Min <= min <= max <= Int32Max && max - min <= Int32Max
      modifies this, out
      ensures Valid() && haveNextNextGaussian == old(haveNextNextGaussian)
      ensures seeded == (old(seeded) || len > 0)
      ensures Current() == RunSeed(old(Current()), len, max - min)
      ensures forall k :: 0 <= k < len ==> out[k] == BoundedAt(old(Current()), k, max - min) + min
      ensures forall k :: len <= k < out.Length ==> out[k] == old(out[k])
      ensures min < max ==> forall k :: 0 <= k < len ==> min <= out[k] < max
    {
      var bound := max - min;
      FillRun(out, len, bound, min);
    }

    /** The loop of Random_intsb, for a bound already computed as max - min. */
    method FillRun(out: array<int>, len: nat, bound: int, min: int)
      requires Valid() && len <= out.Length && 0 <= bound <= Int32Max
      modifies this, out
      ensures Valid() && haveNextNextGaussian == old(haveNextNextGaussian)
      ensures seeded == (old(seeded) || len > 0)
      ensures Current() == RunSeed(old(Current()), len, bound)
      ensures forall k :: 0 <= k < len ==> out[k] == BoundedAt(old(Current()), k, bound) + min
      ensures forall k :: len <= k < out.Length ==> out[k] == old(out[k])
    {
      var k := 0;
      while k < len
        invariant 0 <= k <= len
        invariant Valid() && haveNextNextGaussian == old(haveNextNextGaussian)
        invariant seeded == (old(seeded) || k > 0)
        invariant Current() == RunSeed(old(Current()), k, bound)
        invariant forall m :: 0 <= m < k ==> out[m] == BoundedAt(old(Current()), m, bound) + min
        invariant forall m :: k <= m < out.Length ==> out[m] == old(out[m])
      {
        FillBounded(out, k, bound, min, old(Current()));
        k := k + 1;
      }
      assert k == len;
    }
  }

  /** The nextInt that starts chunk c of a fill from s0 is IntAt(s0, c), and
      it leaves the seed c + 1 steps on. */
  lemma ChunkStep(s0: nat, c: nat)
    requires s0 < Modulus
    ensures IntAt(Iterate(s0, c), 0) == IntAt(s0, c)
    ensures Iterate(Iterate(s0, c), 1) == Iterate(s0, c + 1)
  {
    IterateAdd(s0, c, 1);
  }

  /** The inner loop of Random_nextBytes: the n low bytes of rnd, least
      significant first, into out[i..i + n), shifting rnd right by 8 after
      each. */
  method StoreBytes(out: array<byte>, i: nat, n: nat, rnd: int)
    requires i + n <= out.Length && n <= 4
    modifies out
    ensures forall k :: i <= k < i + n ==> out[k] == ByteOf(rnd, k - i)
    ensures forall k :: 0 <= k < out.Length && !(i <= k < i + n) ==> out[k] == old(out[k])
  {
    var r := rnd;
    var j := 0;
    while j < n
      invariant 0 <= j <= n && r == ShiftBytes(rnd, j)
      invariant forall k :: i <= k < i + j ==> out[k] == ByteOf(rnd, k - i)
      invariant forall k :: 0 <= k < out.Length && !(i <= k < i + j) ==> out[k] == old(out[k])
    {
      out[i + j] := (r % 256) as byte;
      ShiftBytesStep(rnd, j);
      r := r / 256;
      j := j + 1;
    }
  }

  /** The bytes of chunk c are bytes 4 * c to 4 * c + 3 of the fill. */
  lemma ChunkBytes(s0: nat, i: nat, c: nat, n: nat)
    requires s0 < Modulus && i == 4 * c && n <= 4
    ensures forall k :: i <= k < i + n ==> ByteAt(s0, k) == ByteOf(IntAt(s0, c), k - i)
  {
    forall k | i <= k < i + n
      ensures ByteAt(s0, k) == ByteOf(IntAt(s0, c), k - i)
    {
      ByteAtChunk(s0, k, c, k - i);
    }
  }

  /** Byte j of chunk c is byte 4 * c + j of the fill. */
  lemma ByteAtChunk(s0: nat, i: nat, c: nat, j: nat)
    requires s0 < Modulus && j < 4 && i == 4 * c + j
    ensures ByteAt(s0, i) == ByteOf(IntAt(s0, c), j)
  {
    DivModUnique(4 * c + j, 4, c, j);
  }

  /** After 1 to 4 bytes of chunk c, c + 1 chunks have been started. */
  lemma ChunkCount(i: nat, c: nat, j: nat)
    requires 1 <= j <= 4 && i == 4 * c + j
    ensures (i + 3) / 4 == c + 1
  {
    DivModUnique(4 * c + j + 3, 4, c + 1, j - 1);
  }

  // ------------------------------------------------------------------ clients

  /** java.util.Random's published first nextInt after setSeed(0). */
  method NextIntAfterSeedZero() returns (r: int)
    ensures r == -1155484576
  {
    var g := new Random(0);
    g.SetSeed(0);
    r := g.NextInt();
    SeedZeroDraws();
  }

  /** java.util.Random's first nextLong after setSeed(0). */
  method NextLongAfterSeedZeroClient() returns (r: int)
    ensures r == -4962768465676381896
  {
    var g := new Random(0);
    g.SetSeed(0);
    r := g.NextLong();
    NextLongAfterSeedZero();
  }

  /** Two instances seeded alike produce the same bounded values and end in
      the same state. */
  method SameSeedSameValues(s: nat, bound: int) returns (x1: int, x2: int, y1: int, y2: int, gs: nat, hs: nat)
    requires s < Two64 && 0 <= bound <= Int32Max
    ensures x1 == y1 && x2 == y2 && gs == hs
    ensures bound > 0 ==> 0 <= x1 < bound && 0 <= x2 < bound
  {
    var g := new Random(0);
    var h := new Random(1);
    g.SetSeed(s);
    h.SetSeed(s);
    x1 := g.NextIntb(bound);
    x2 := g.NextIntb(bound);
    y1 := h.NextIntb(bound);
    y2 := h.NextIntb(bound);
    gs, hs := g.seed, h.seed;
  }

  /** An instance that draws without being seeded draws as one seeded with
      its unique value. */
  method LazySeedMatchesSeed(unique: nat) returns (x: int, y: int)
    requires unique < Modulus
    ensures x == y
  {
    var g := new Random(unique);
    var h := new Random(0);
    h.Seed(unique);
    x := g.NextInt();
    y := h.NextInt();
  }
}
