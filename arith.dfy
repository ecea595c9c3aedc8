/** Powers of two and the facts about Euclidean division that the generator's
    shifts and masks rest on. A right shift by k of a non-negative value is a
    division by Pow2(k); masking to the low k bits is a remainder by Pow2(k). */
module Arith {

  function Pow2(n: nat): (r: nat)
    ensures r >= 1
  {
    if n == 0 then 1 else 2 * Pow2(n - 1)
  }

  lemma {:induction false} Pow2Add(m: nat, n: nat)
    ensures Pow2(m + n) == Pow2(m) * Pow2(n)
  {
    if n > 0 {
      Pow2Add(m, n - 1);
      assert Pow2(m + n) == 2 * Pow2(m + n - 1);
    }
  }

  lemma {:induction false} Pow2Monotone(m: nat, n: nat)
    requires m <= n
    ensures Pow2(m) <= Pow2(n)
  {
    if m < n {
      Pow2Monotone(m, n - 1);
    }
  }

  /** The values the generator uses, by name. */
  lemma Pow2Values()
    ensures Pow2(8) == 0x100 && Pow2(16) == 0x1_0000 && Pow2(24) == 0x100_0000
    ensures Pow2(17) == 0x2_0000 && Pow2(26) == 0x400_0000 && Pow2(27) == 0x800_0000
    ensures Pow2(30) == 0x4000_0000 && Pow2(31) == 0x8000_0000 && Pow2(32) == 0x1_0000_0000
    ensures Pow2(47) == 0x8000_0000_0000 && Pow2(48) == 0x1_0000_0000_0000
    ensures Pow2(53) == 0x20_0000_0000_0000 && Pow2(64) == 0x1_0000_0000_0000_0000
  {
    assert Pow2(8) == 0x100;
    assert Pow2(16) == 0x1_0000;
    assert Pow2(24) == 0x100_0000;
    assert Pow2(32) == 0x1_0000_0000;
    assert Pow2(40) == 0x100_0000_0000;
    assert Pow2(48) == 0x1_0000_0000_0000;
    assert Pow2(56) == 0x100_0000_0000_0000;
  }

  lemma MulAtLeast(k: int, d: int)
    requires k >= 1 && d > 0
    ensures k * d >= d
  {
    assert k * d == (k - 1) * d + d;
  }

  /** a * d fits under y exactly when a fits under y / d. */
  lemma MulBelowIff(a: int, d: int, y: int)
    requires d > 0 && a >= 0 && y >= 0
    ensures a * d <= y <==> a <= y / d
  {
    var q := y / d;
    assert y == q * d + y % d;
    if a <= q {
      MulLeft(a, q, d);
    } else {
      MulLeft(q + 1, a, d);
      assert (q + 1) * d == q * d + d;
    }
  }

  /** x is below d * m exactly when x / d is below m. */
  lemma BelowMulIff(x: int, d: int, m: int)
    requires d > 0 && x >= 0 && m >= 0
    ensures x < d * m <==> x / d < m
  {
    var q := x / d;
    assert x == q * d + x % d;
    if q < m {
      MulLeft(q + 1, m, d);
      assert (q + 1) * d == q * d + d;
    } else {
      MulLeft(m, q, d);
    }
  }

  /** Quotient and remainder are determined by the division equation. */
  lemma DivModUnique(x: int, d: int, q: int, r: int)
    requires d > 0 && 0 <= r < d && x == q * d + r
    ensures x / d == q && x % d == r
  {
    var q0, r0 := x / d, x % d;
    assert x == q0 * d + r0;
    if q0 > q {
      assert (q0 - q) * d == q0 * d - q * d;
      MulAtLeast(q0 - q, d);
    } else if q0 < q {
      assert (q - q0) * d == q * d - q0 * d;
      MulAtLeast(q - q0, d);
    }
  }

  /** Adding a multiple of m does not change a remainder modulo m. */
  lemma ModAddMultiple(t: int, k: int, m: int)
    requires m > 0
    ensures (k * m + t) % m == t % m
  {
    DivModUnique(k * m + t, m, k + t / m, t % m);
  }

  lemma MulLeft(u: int, v: int, a: int)
    requires u <= v && a >= 0
    ensures u * a <= v * a
  {
    assert v * a - u * a == (v - u) * a;
  }

  /** Shifting right by a and then by b is shifting right by a + b. */
  lemma DivDiv(x: int, a: int, b: int)
    requires a > 0 && b > 0
    ensures x / a / b == x / (a * b)
  {
    var q, r := x / a, x % a;
    var q2, r2 := q / b, q % b;
    assert x == q * a + r;
    assert q == q2 * b + r2;
    assert q * a == q2 * (a * b) + r2 * a by {
      assert (q2 * b + r2) * a == q2 * b * a + r2 * a;
    }
    MulLeft(r2, b - 1, a);
    assert (b - 1) * a == a * b - a;
    DivModUnique(x, a * b, q2, r2 * a + r);
  }

  /** Masking to the low a*b bits and then to the low a bits is masking to the low a bits. */
  lemma ModMod(x: int, a: int, b: int)
    requires a > 0 && b > 0
    ensures x % (a * b) % a == x % a
  {
    var q := x / (a * b);
    assert x == q * (a * b) + x % (a * b);
    ModAddMultiple(x % (a * b), q * b, a);
    assert (q * b) * a == q * (a * b);
  }

  /** A common positive factor cancels from a quotient. */
  lemma DivCancel(c: int, b: int, d: int)
    requires c > 0 && d > 0
    ensures (c * b) / (c * d) == b / d
  {
    var q, r := b / d, b % d;
    assert b == q * d + r;
    assert c * b == q * (c * d) + c * r by {
      assert c * (q * d) == q * (c * d);
    }
    MulLeft(r, d - 1, c);
    assert (d - 1) * c == c * d - c;
    assert c * r == r * c;
    DivModUnique(c * b, c * d, q, c * r);
  }

  /** x >> n for a non-negative x, one bit at a time. The header's fast path
      shifts the product bound * next(31) by a fixed 31; the model states it in
      the equivalent form next(31) >> (31 - k) for bound 2^k (Outputs.FastPathValue,
      proved equal by Outputs.FastPathScales), a shift by a variable amount.
      ShiftRightIsDivision turns it into the division by Pow2(n) that the
      fixed shifts (Lcg.Top, Outputs.ShiftBytes) are written with directly. */
  function ShiftRight(x: nat, n: nat): nat
  {
    if n == 0 then x else ShiftRight(x / 2, n - 1)
  }

  lemma {:induction false} ShiftRightIsDivision(x: nat, n: nat)
    ensures ShiftRight(x, n) == x / Pow2(n)
  {
    if n > 0 {
      ShiftRightIsDivision(x / 2, n - 1);
      DivDiv(x, 2, Pow2(n - 1));
    }
  }

  /** A proper fraction of naturals lies in [0, 1). */
  lemma FractionBelowOne(n: nat, d: nat)
    requires n < d
    ensures 0.0 <= n as real / d as real < 1.0
  {
    assert n as real < d as real;
  }

  lemma DivBelow(x: int, d: int, n: int)
    requires d > 0 && 0 <= x < d * n
    ensures 0 <= x / d < n
  {
  }

  /** A product taken modulo m may reduce its right factor first. */
  lemma ModMulRight(a: int, x: int, c: int, m: int)
    requires m > 0
    ensures (a * (x % m) + c) % m == (a * x + c) % m
  {
    var q := x / m;
    assert x == q * m + x % m;
    assert a * x + c == (a * q) * m + (a * (x % m) + c);
    ModAddMultiple(a * (x % m) + c, a * q, m);
  }

  /** A sum taken modulo m may reduce its terms first. */
  lemma ModAddBoth(x: int, y: int, m: int)
    requires m > 0
    ensures (x % m + y % m) % m == (x + y) % m
  {
    assert x == (x / m) * m + x % m;
    assert y == (y / m) * m + y % m;
    assert x + y == (x / m + y / m) * m + (x % m + y % m);
    ModAddMultiple(x % m + y % m, x / m + y / m, m);
  }

  /** Bitwise exclusive or of two naturals, bit by bit from the least significant. */
  function Xor(a: nat, b: nat): nat
    decreases a + b
  {
    if a == 0 && b == 0 then 0 else 2 * Xor(a / 2, b / 2) + (a + b) % 2
  }

  lemma XorUnfold(a: nat, b: nat)
    ensures Xor(a, b) == 2 * Xor(a / 2, b / 2) + (a + b) % 2
  {
  }

  lemma HalveDigits(x: int, bit: int)
    requires bit == 0 || bit == 1
    ensures (2 * x + bit) / 2 == x && (2 * x + bit) % 2 == bit
  {
    DivModUnique(2 * x + bit, 2, x, bit);
  }

  /** Zero is the identity of exclusive or. */
  lemma {:induction false} XorZeroLeft(b: nat)
    ensures Xor(0, b) == b
  {
    if b > 0 {
      XorZeroLeft(b / 2);
    }
  }

  /** Xor with a fixed value undoes itself. */
  lemma {:induction false} XorInvolution(a: nat, b: nat)
    ensures Xor(Xor(a, b), b) == a
    decreases a + b
  {
    var h, bit := Xor(a / 2, b / 2), (a + b) % 2;
    var x := Xor(a, b);
    XorUnfold(a, b);
    assert x == 2 * h + bit;
    HalveDigits(h, bit);
    XorUnfold(x, b);
    if a + b > 0 {
      XorInvolution(a / 2, b / 2);
    } else {
      assert h == 0;
    }
    ParitySum(a, b, h);
  }

  /** Adding b to a number whose parity is that of a + b gives the parity of a. */
  lemma ParitySum(a: nat, b: nat, h: int)
    ensures (2 * h + (a + b) % 2 + b) % 2 == a % 2
  {
    var q := (a + b) / 2;
    assert 2 * h + (a + b) % 2 + b == (h - q + b) * 2 + a;
    ModAddMultiple(a, h - q + b, 2);
  }


  /** The low k bits of an exclusive or depend only on the low k bits of its operands. */
  lemma {:induction false} XorLow(a: nat, b: nat, k: nat)
    ensures Xor(a, b) % Pow2(k) == Xor(a % Pow2(k), b % Pow2(k))
  {
    if k > 0 {
      var p := Pow2(k - 1);
      var a', b' := a % (2 * p), b % (2 * p);
      var h := Xor(a / 2, b / 2);
      assert Pow2(k) == 2 * p;
      XorLow(a / 2, b / 2, k - 1);
      XorUnfold(a, b);
      XorUnfold(a', b');
      LowBitsHalve(a, p);
      LowBitsHalve(b, p);
      ParityOfSum(a, b, a', b');
      DoubleMod(h, (a + b) % 2, p);
    }
  }

  /** Sums of pairwise equal parities have equal parity. */
  lemma ParityOfSum(x: int, y: int, x': int, y': int)
    requires x % 2 == x' % 2 && y % 2 == y' % 2
    ensures (x + y) % 2 == (x' + y') % 2
  {
    ModAddBoth(x, y, 2);
    ModAddBoth(x', y', 2);
  }


  /** Dropping the lowest bit commutes with keeping the low bits. */
  lemma LowBitsHalve(x: nat, p: nat)
    requires p > 0
    ensures (x % (2 * p)) / 2 == (x / 2) % p && (x % (2 * p)) % 2 == x % 2
  {
    DivDiv(x, 2, p);
    ModMod(x, 2, p);
    var q := x / (2 * p);
    var r := x % (2 * p);
    assert x == q * (2 * p) + r;
    assert x / 2 == q * p + r / 2 by {
      assert x == (q * p + r / 2) * 2 + r % 2;
      DivModUnique(x, 2, q * p + r / 2, r % 2);
    }
    DivModUnique(x / 2, p, q, r / 2);
  }

  lemma DoubleMod(x: nat, bit: nat, p: nat)
    requires p > 0 && bit < 2
    ensures (2 * x + bit) % (2 * p) == 2 * (x % p) + bit
  {
    var q := x / p;
    assert x == q * p + x % p;
    assert 2 * x + bit == q * (2 * p) + (2 * (x % p) + bit);
    DivModUnique(2 * x + bit, 2 * p, q, 2 * (x % p) + bit);
  }
}
