# Random: a verified model of the LCLib `java.util.Random` generator

`include/Random.h` fixes, in "as though by" algorithms, a pseudo-random number
generator that must reproduce `java.util.Random` of Java SE 8 bit for bit. Its
state is a 48-bit seed advanced by the linear-congruential recurrence
`seed <- (seed * 0x5DEECE66D + 0xB) mod 2^48`. Every output is taken from the
top bits of the new seed: `nextInt`, the bounded `nextIntb`, `nextLong`,
`nextBoolean`, `nextFloat`, `nextDouble`, the byte fill `nextBytes` and the bulk
fills `ints` and `intsb`.

The project has four modules:

- `Arith` (`arith.dfy`): powers of two, division and remainder facts, a
  right shift, and bitwise XOR on naturals.
- `Lcg` (`lcg.dfy`): the constants, the recurrence (`Step`, `Iterate`), the
  seed scrambling of `setSeed`, the top-bits extraction, and two's-complement
  readings. It also holds the half-period theorem: 2^47 steps add 2^47 to the
  seed modulo 2^48. That theorem bounds the rejection loop of `nextIntb`.
- `Outputs` (`outputs.dfy`): every output as a pure function of the seed the
  call starts from (`IntAt`, `BoundedNext`, `FloatAt`, `DoubleAt`, `ByteAt`,
  the `intsb` run functions), or, for nextLong, of the two draws it makes
  (`LongFromDraws`, which `NextLong`'s `ensures` applies to the draws from
  its starting seed), with the properties of those functions.
- `RandomGen` (`random.dfy`): the instance as a class with the mutable fields
  `seed`, `seeded` and `haveNextNextGaussian`. Each operation is a method that
  updates those fields. The method's `ensures` ties its result and the new
  seed to the `Outputs` function of the seed it started from. The bulk fills
  write into caller arrays in loops. The loops mirror the header's algorithms:
  the `do … while` rejection loop of `nextIntb`, and the nested loops of
  `nextBytes`.

An instance that has been neither seeded nor set starts drawing from a seed
chosen as `Random_seed` would. The model calls it `autoSeed` and takes it as a
constructor argument. `Current()` is the seed the next draw advances from.

Throughout, bounds and seeds are unbounded `nat`/`int`. The C types are modelled
explicitly:

- The masks `& ((1 << 48) - 1)` are remainders by 2^48.
- The casts to `int32_t` and `int64_t` are `ToInt32` and `ToInt64`. Both read
  an out-of-range value as two's complement, as `java.util.Random` does; in C
  those conversions are implementation-defined (see "## Left out").
- The rejection test of `nextIntb` is evaluated in 32-bit two's complement, as
  `java.util.Random` evaluates it. In C the overflow there is undefined; see
  "## Left out".

Bytes are a `byte` newtype over `0..255`.

`Random.h:125` requires only that the bound of `nextIntb` is not negative. So a
bound of 0 is allowed, and it is modelled as the header's algorithm runs it:
`0 & -0 == 0` passes the power-of-two test, and the fast path returns 0 after
one draw.

## Model

| member | source | states |
|---|---|---|
| `Lcg.Scramble` | include/Random.h:86-93 | setSeed installs `(seed ^ 0x5DEECE66D) & (2^48 - 1)`, which is a 48-bit state |
| `Lcg.ScrambleInjective` | include/Random.h:88 | two setSeed arguments give the same state if and only if they agree in their low 48 bits |
| `Arith.Xor` | include/Random.h:88 | the `^` of setSeed, bit by bit from the least significant; `Lcg.ScrambleInjective` proves what it preserves |
| `Lcg.Step` | include/Random.h:97 | one step of the recurrence keeps the seed below 2^48 |
| `Lcg.Iterate` | include/Random.h:97 | any number of steps keeps the seed below 2^48 |
| `Lcg.IterateAdd` | include/Random.h:97 | m + n steps are m steps followed by n steps |
| `Lcg.Top` | include/Random.h:98 | `seed >> (48 - bits)` has at most `bits` bits, so it fits the `uint32_t` result |
| `Lcg.TopInRange` | include/Random.h:98 | the shifted seed is non-negative and below 2^bits |
| `Lcg.TopBit` | include/Random.h:168 | the 1-bit draw is the top bit of the 32-bit draw from the same seed |
| `Lcg.ToInt32` | include/Random.h:108 | the `int32_t` cast lands in the int32 range and is congruent to its argument modulo 2^32 |
| `Lcg.ToInt64` | include/Random.h:132 | the `int64_t` cast lands in the int64 range and is congruent to its argument modulo 2^64 |
| `Lcg.HalfPeriodShift` | include/Random.h:117-122 | 2^47 steps of the recurrence flip the top bit of any seed and keep the other 47 |
| `Lcg.HighRunBound` | include/Random.h:117-122 | no more than 2^47 consecutive seeds lie in the upper half of the seed space |
| `Outputs.DrawAt` | include/Random.h:97-98 | draw j of a run takes `bits` bits from the seed after j steps, so it is below 2^bits |
| `Outputs.IntAt` | include/Random.h:107-110 | the k-th nextInt of a run is the int32 reading of the 32-bit draw k + 1, within the int32 range |
| `Outputs.BooleanIsSignOfInt` | include/Random.h:166-170 | `next(1) != 0` holds exactly when nextInt from the same seed would be negative |
| `Outputs.LowestSetBit` | include/Random.h:114 | `bound & -bound` is a positive part of a positive bound, and 0 for a bound of 0 |
| `Outputs.IsPowerOfTwoTest` | include/Random.h:114 | the fast-path test `(bound & -bound) == bound`; `Outputs.PowerOfTwoTestExact` proves it passes exactly the powers of two |
| `Outputs.Log2` | include/Random.h:114 | the exponent of the highest set bit, `2^k <= n < 2^(k+1)` |
| `Outputs.Log2Below` | include/Random.h:114 | a number below 2^m has its highest set bit below m |
| `Outputs.Log2OfPow2` | include/Random.h:114 | the highest set bit of 2^k is k |
| `Outputs.PowerOfTwoTestExact` | include/Random.h:114 | a positive bound passes `(bound & -bound) == bound` if and only if it is a power of two |
| `Outputs.PowerOfTwoPassesTest` | include/Random.h:114 | every power of two passes the fast-path test |
| `Outputs.Accepts` | include/Random.h:121 | the loop condition read in exact arithmetic: a draw is accepted when `bits - val + (bound-1) <= 2^31 - 1`; `Outputs.RejectsAsWrittenExact` and `Outputs.AcceptsBelowLimit` prove what it means |
| `Outputs.RejectsAsWritten` | include/Random.h:121 | the loop condition `bits - val + (bound-1) < 0`, evaluated in 32-bit two's complement; `Outputs.RejectsAsWrittenExact` proves it is the exact overflow test |
| `Outputs.RejectsAsWrittenExact` | include/Random.h:121 | the 32-bit wrapped test `bits - val + (bound-1) < 0` rejects exactly the draws whose exact sum exceeds 2^31 - 1 |
| `Outputs.AcceptsBelowLimit` | include/Random.h:117-122 | a draw is accepted if and only if it lies below the largest multiple of bound not above 2^31, which removes the modulo bias |
| `Outputs.RejectedDrawIsHigh` | include/Random.h:117-122 | a rejected 31-bit draw is at least 2^30 |
| `Outputs.HighDrawHighSeed` | include/Random.h:98 | a 31-bit draw of at least 2^30 comes from a seed of at least 2^47 |
| `Outputs.RejectionRunBound` | include/Random.h:117-122 | no seed and bound make the rejection loop reject more than 2^47 draws in a row, so the loop ends |
| `Outputs.FirstAccepted` | include/Random.h:117-122 | the first accepted draw at or after draw k: it is accepted and every earlier draw was rejected |
| `Outputs.FirstAcceptedUnique` | include/Random.h:117-122 | a draw that is accepted after a run of rejections is the first accepted draw |
| `Outputs.FastPathValue` | include/Random.h:114-115 | the fast path for a bound 2^k keeps the top k bits of the 31-bit draw, a value in [0, bound), and 0 for a bound of 0 |
| `Outputs.ShiftedDrawBelow` | include/Random.h:115 | a 31-bit draw shifted right by 31 - k is below 2^k |
| `Outputs.FastPathExponent` | include/Random.h:114 | a bound that passes the test is 2^k with k <= 30 |
| `Outputs.FastPathScales` | include/Random.h:115 | the fast-path value equals `(bound * next(31)) >> 31` as written |
| `Outputs.ShiftIsScaling` | include/Random.h:115 | multiplying by 2^k and shifting right by 31 is shifting right by 31 - k |
| `Outputs.BoundedNext` | include/Random.h:112-130 | nextIntb's value and draw count: in [0, bound) for a positive bound; one draw on the fast path; otherwise the first accepted draw mod bound, with every earlier draw rejected |
| `Outputs.BoundedNextFastPath` | include/Random.h:114-115 | for a bound that passes the test, nextIntb is `(bound * next(31)) >> 31` after exactly one draw |
| `Outputs.BoundedNextRejection` | include/Random.h:117-122 | for other bounds, nextIntb is `bits % bound` for the first accepted draw, and it consumes exactly the draws up to that one |
| `Outputs.PowerOfTwoFastPath` | include/Random.h:114-115 | for bound 2^k, nextIntb returns the top k bits of the new seed with a single draw |
| `Outputs.RunSeed` | include/Random.h:196-201 | the seed after k successive nextIntb calls stays a 48-bit seed |
| `Outputs.BoundedAt` | include/Random.h:196-201 | every value of a run of nextIntb calls lies in [0, bound) for a positive bound, and is 0 for a bound of 0 |
| `Outputs.RunSeedStep` | include/Random.h:196-201 | a run of k + 1 calls is a run of k calls followed by one more nextIntb from the seed they leave |
| `Outputs.RunDraws` | include/Random.h:196-201 | k nextIntb calls consume at least k draws, and the run's seed is the recurrence that many steps on |
| `Outputs.LongAsWritten` | include/Random.h:132 | nextLong as the header writes it, with the second draw ORed in unsigned, is in the int64 range |
| `Outputs.LongFromDraws` | include/Random.h:131-135 | nextLong as `java.util.Random` defines it is in the int64 range and is congruent to `int(hi) * 2^32 + int(lo)` modulo 2^64 |
| `Outputs.LongReadingsAgreeIff` | include/Random.h:132 | the two readings of nextLong agree if and only if the second draw is at most 2^31 - 1 |
| `Outputs.LongReadingsAgree` | include/Random.h:132 | when the second draw is at most 2^31 - 1, the header's reading equals `java.util.Random`'s |
| `Outputs.LongReadingsDiffer` | include/Random.h:132 | when the second draw is above 2^31 - 1, the two readings differ |
| `Outputs.ScrambleZero` | include/Random.h:88 | setSeed(0) installs the multiplier itself |
| `Outputs.SeedZeroSteps` | include/Random.h:97 | the first two seeds after setSeed(0) |
| `Outputs.SeedZeroDraws` | include/Random.h:97-98 | the first two 32-bit draws after setSeed(0) are 3139482720 and 3571011896 |
| `Outputs.NextLongAfterSeedZero` | include/Random.h:131-135 | after setSeed(0), the `java.util.Random` reading of nextLong is -4962768465676381896 and the header's reading is -4962768461381414600 |
| `Outputs.NextLongAfterSeedZeroSwapped` | include/Random.h:132 | if C evaluates the right operand of the OR first, the header's reading after setSeed(0) is -3109364763623115680 |
| `Outputs.LongFromSeedZeroDraws` | include/Random.h:131-135 | the `java.util.Random` reading of those two draws |
| `Outputs.LongAsWrittenSeedZeroDraws` | include/Random.h:132 | the header's reading of those two draws |
| `Outputs.FloatNumerator` | include/Random.h:138 | the numerator of nextFloat is the 24-bit draw, below 2^24 |
| `Outputs.DoubleNumerator` | include/Random.h:143 | `(next(26) << 27) OR next(27)` is below 2^53, and both draws can be read back from it |
| `Outputs.FloatAt` | include/Random.h:136-140 | nextFloat is in [0, 1) and is the 24-bit numerator over 2^24 |
| `Outputs.DoubleAt` | include/Random.h:141-145 | nextDouble is in [0, 1) and is the 53-bit numerator over 2^53 |
| `Outputs.ShiftBytes` | include/Random.h:175 | `rnd` after j of the `rnd >>= 8` steps is the floor of `rnd / 2^(8j)`, an arithmetic shift |
| `Outputs.ByteOf` | include/Random.h:176 | `(char)rnd` after j shifts: the low eight bits of the shifted value, read as an unsigned byte |
| `Outputs.ShiftBytesStep` | include/Random.h:175 | shifting `rnd` right by 8 once more moves to the next byte |
| `Outputs.ByteOfUnsigned` | include/Random.h:176 | byte j of a nextInt value, as `(char)rnd`, is byte j of the unsigned 32-bit draw |
| `Outputs.ChunkRoundTrip` | include/Random.h:171-181 | the four bytes nextBytes takes from one nextInt reassemble, least significant first, into the 32-bit draw |
| `Outputs.ByteAt` | include/Random.h:173-176 | byte i of a fill is byte `i mod 4`, least significant first, of the unsigned 32-bit draw that nextInt number `i / 4` reads |
| `RandomGen.Random.Current` | include/Random.h:77-78 | a seeded instance draws from its seed, and an unseeded one from the seed Random_seed would give it |
| `RandomGen.Random.constructor` | include/Random.h:47-62 | Random_new gives an instance that is not yet seeded and whose Gaussian flag is clear |
| `RandomGen.Random.Seed` | include/Random.h:71-82 | Random_seed installs a 48-bit seed and clears haveNextNextGaussian |
| `RandomGen.Random.SetSeed` | include/Random.h:86-93 | the seed becomes `Scramble(s)` and haveNextNextGaussian is cleared; two arguments give the same state if and only if they agree in their low 48 bits |
| `RandomGen.Random.Next` | include/Random.h:95-104 | one step of the recurrence, seeding first if needed; returns the top `bits` bits of the new seed; the Gaussian flag is unchanged |
| `RandomGen.Random.NextInt` | include/Random.h:107-110 | the int32 reading of next(32), one step on |
| `RandomGen.Random.NextIntb` | include/Random.h:112-130 | the fast path or the rejection loop; the result and seed are those of `BoundedNext`, and the result lies in [0, bound) |
| `RandomGen.Random.NextLong` | include/Random.h:131-135 | the `java.util.Random` nextLong of two 32-bit draws, two steps on |
| `RandomGen.Random.NextBoolean` | include/Random.h:166-170 | `next(1) != 0`, which holds exactly when nextInt from the same seed would be negative |
| `RandomGen.Random.NextFloat` | include/Random.h:136-140 | next(24) over 2^24, one step on |
| `RandomGen.Random.NextDouble` | include/Random.h:141-145 | `(next(26) << 27 OR next(27))` over 2^53, two steps on |
| `RandomGen.Random.FillChunk` | include/Random.h:174-176 | one pass of the outer loop writes bytes 4c .. 4c + n - 1 of the fill from one nextInt, and nothing else |
| `RandomGen.Random.NextBytes` | include/Random.h:171-181 | `out[i]` is byte `i mod 4` of nextInt number `i / 4`; there are `ceil(size / 4)` steps; nothing past `size` changes |
| `RandomGen.Random.Ints` | include/Random.h:183-188 | `out[k]` is the k-th nextInt; there are len steps; nothing past len changes |
| `RandomGen.Random.FillBounded` | include/Random.h:196-201 | one element of intsb: `out[k] := nextIntb(bound) + min`, with the run's seed one call on |
| `RandomGen.Random.Intsb` | include/Random.h:196-201 | `out[k]` is the k-th nextIntb(max - min) plus min, and it lies in [min, max) when min < max; nothing past len changes |
| `RandomGen.Random.FillRun` | include/Random.h:196-201 | the loop of intsb over a computed bound, element by element |
| `RandomGen.StoreBytes` | include/Random.h:174-176 | the inner loop stores the n low bytes of rnd, least significant first, into `out[i..i+n)`, and nothing else |
| `RandomGen.ChunkStep` | include/Random.h:174 | the nextInt that starts chunk c is the c-th nextInt of the fill |
| `RandomGen.ChunkBytes` | include/Random.h:173-176 | the bytes of chunk c are bytes 4c to 4c + 3 of the fill |
| `RandomGen.ByteAtChunk` | include/Random.h:176 | byte j of chunk c is byte 4c + j of the fill |
| `RandomGen.ChunkCount` | include/Random.h:173-174 | after 1 to 4 bytes of chunk c, c + 1 chunks have been started |
| `RandomGen.NextIntAfterSeedZero` | include/Random.h:107-110 | after setSeed(0), nextInt returns -1155484576, `java.util.Random`'s value |
| `RandomGen.NextLongAfterSeedZeroClient` | include/Random.h:131-135 | after setSeed(0), nextLong returns -4962768465676381896, `java.util.Random`'s value |
| `RandomGen.SameSeedSameValues` | include/Random.h:86-93 | two instances given the same setSeed argument return the same nextIntb values and end in the same state |
| `RandomGen.LazySeedMatchesSeed` | include/Random.h:77-78 | an instance that draws before being seeded draws as one seeded by Random_seed with its unique value |

## Left out

- `Random_nextGaussian` is left out. It is floating point: `sqrt`, `log`, and a rejection test on a rounded double. The model keeps only the `haveNextNextGaussian` flag. Every seeding operation clears the flag, and every other operation keeps it.
- `Random_doubles` and `Random_doublesb` are left out. They are floating-point fills, and `doublesb` also multiplies and adds rounded doubles.
- `Random_seed`'s algorithm for a unique seed is left out. The header leaves it unspecified. The seed is a parameter instead: `unique` for `Random_seed`, and `autoSeed` for the lazy seeding at the first draw.
- The `TIGAME_MULTITHREAD_SUPPORT` atomicity of `setSeed` and `next` is not modelled. It is about concurrency.
- `src/ThreadLocalRandom.c` is not part of this model. It is thread-specific storage and lifecycle glue.
- `Random_new`'s failure to allocate (returning NULL) is not modelled, and `Random_free` is not modelled. Both are allocation plumbing.
- The Expects clauses that the instance and the output range be valid memory are not modelled. Dafny references and arrays are always valid.
- `ints` and `intsb` may write their outputs in any order. The model writes them in ascending order, one value per call.
- `nextFloat` and `nextDouble` return the exact real that the float or double holds. The numerators are below 2^24 and 2^53 and the divisors are powers of two, so both values are exact and no rounding is modelled.
- `Random.h:143` is not well-formed C as written. Its parentheses do not balance. Its numerator `(double)(((uint64_t)next(26))<<27)|next(27)` ORs a `double`. Its divisor `/1uLL<<53` shifts a double. The model reads the numerator as the integer OR `(next(26) << 27) OR next(27)` and the divisor as 2^53, as in `java.util.Random`.
- `Random_nextBytes` writes `(char)rnd`. The model stores the low eight bits of `rnd` as an unsigned byte. `rnd >>= 8` on a negative `int32_t` is modelled as an arithmetic shift, and either kind of shift gives the same low byte.
- RandomGen.Random.NextBytes: follows the `size_t size` parameter and fills any size. The header's loop counts with an `int i`, which overflows (undefined behaviour) once `size` exceeds 2^31 - 1; the model does not reproduce that limit.
- C semantics at four places in the header are replaced by `java.util.Random`'s, which the header's conformance statement (lines 22-25) adopts. At line 108, the `(int32_t)` conversion of a draw of 2^31 or more is implementation-defined in C (section 6.3.1.3 of ISO C11), and the model reads it as two's complement (`Lcg.ToInt32`); `nextInt`, `ints`, `nextBytes` and the seed-0 value -1155484576 rest on that reading. At line 121, `bits - val + (bound-1)` overflows `int32_t` for exactly the draws the loop rejects; in C that is undefined behaviour, and the model wraps it modulo 2^32 (`Outputs.RejectsAsWritten`). At line 132, the `(int64_t)` conversion of a value of 2^63 or more is implementation-defined in C, and the model reads it as two's complement (`Lcg.ToInt64`). At lines 132 and 143, the two `Random_next` calls are operands of `|`, whose evaluation order C leaves unspecified; the model takes the left call's draw first, so it is the high part.
- `Random_intsb` computes `max - min` in `int`, and the header requires the bound to be non-negative. The model therefore requires `min <= max` and `max - min <= 2^31 - 1`, the inputs for which `max - min` is a valid bound.

## Findings

| source | as written | input that shows it | evidently intended | confidence | as-written member | corrected member |
|---|---|---|---|---|---|---|
| include/Random.h:132 | `(int64_t)(((uint64_t)next(32) << 32) OR next(32))`: the second draw is ORed in as an unsigned 32-bit value | `setSeed(0)` then `nextLong`: the second draw is 3571011896, which is above 2^31 - 1. Evaluated left operand first, the header's formula gives -4962768461381414600, and `java.util.Random` gives -4962768465676381896. C leaves the order of the two calls unspecified; evaluated right operand first, the formula gives -3109364763623115680 (`Outputs.NextLongAfterSeedZeroSwapped`), again not Java's value. The line's parentheses also do not balance (one `)` too many). The two differ whenever the second draw has its top bit set (`Outputs.LongReadingsAgreeIff`) | `java.util.Random`'s `((long)next(32) << 32) + next(32)`, which adds the second draw as a signed int, as the header's own line 22-25 conformance statement requires | not executed | `Outputs.LongAsWritten` (with `Outputs.LongReadingsAgreeIff`, `Outputs.NextLongAfterSeedZero`, `Outputs.NextLongAfterSeedZeroSwapped`) | `Outputs.LongFromDraws`, used by `RandomGen.Random.NextLong` and shown by `RandomGen.NextLongAfterSeedZeroClient` |
