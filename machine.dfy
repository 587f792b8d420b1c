/**
 * The fixed-width integers of C (uint8_t, int32_t, uint32_t) and the C bit
 * operators `&`, `|` and `>>`, stated over Dafny's unbounded integers so that
 * they can be mixed freely with ordinary arithmetic in proofs.
 */
module Machine {

  const U32_LIMIT: int := 0x1_0000_0000

  /** uint32_t */
  type u32 = x: int | 0 <= x < 0x1_0000_0000

  /** int32_t */
  type i32 = x: int | -0x8000_0000 <= x < 0x8000_0000

  /** uint8_t */
  type byte = x: int | 0 <= x < 0x100

  /** The value a uint32_t holds once the mathematical result x is stored in it. */
  function Wrap(x: int): u32
  {
    x % U32_LIMIT
  }

  function Pow2(k: nat): (r: nat)
    ensures r >= 1
  {
    if k == 0 then 1 else 2 * Pow2(k - 1)
  }

  predicate IsPowerOfTwo(x: int)
    decreases if x > 0 then x else 0
  {
    x == 1 || (x > 1 && x % 2 == 0 && IsPowerOfTwo(x / 2))
  }

  /** The exponent of a power of two. */
  function Log2(x: int): (k: nat)
    requires IsPowerOfTwo(x)
    ensures Pow2(k) == x
    decreases if x > 0 then x else 0
  {
    if x == 1 then 0 else 1 + Log2(x / 2)
  }

  /** `a & b` on non-negative integers, bit by bit from the least significant. */
  function And(a: nat, b: nat): nat
    decreases a + b
  {
    if a == 0 && b == 0 then 0
    else 2 * And(a / 2, b / 2) + (if a % 2 == 1 && b % 2 == 1 then 1 else 0)
  }

  /** `a | b` on non-negative integers, bit by bit from the least significant. */
  function Or(a: nat, b: nat): nat
    decreases a + b
  {
    if a == 0 && b == 0 then 0
    else 2 * Or(a / 2, b / 2) + (if a % 2 == 1 || b % 2 == 1 then 1 else 0)
  }

  /** The number of significant bits of m: the position of its highest set bit plus one. */
  function BitLength(m: nat): nat
  {
    if m == 0 then 0 else 1 + BitLength(m / 2)
  }

  /** `a >> k` on a non-negative integer. */
  function Shr(a: nat, k: nat): nat
  {
    DivAtLeast(a, Pow2(k), 0);
    a / Pow2(k)
  }

  // ---------------------------------------------------------------------------
  // Arithmetic facts

  /** Storing a value that already fits leaves it unchanged. */
  lemma WrapInRange(x: int)
    requires 0 <= x < U32_LIMIT
    ensures Wrap(x) == x
  {
    DivModUnique(x, U32_LIMIT, 0, x);
  }

  lemma MulNonNegative(a: int, b: int)
    requires a >= 0 && b >= 0
    ensures a * b >= 0
  {}

  lemma MulDouble(a: int, b: int)
    ensures a * (2 * b) == 2 * (a * b)
  {}

  /** A quotient and remainder that satisfy the division equation are the quotient and remainder. */
  lemma DivModUnique(x: int, d: int, q: int, r: int)
    requires d > 0 && 0 <= r < d && x == q * d + r
    ensures x / d == q && x % d == r
  {
    var q', r' := x / d, x % d;
    assert x == q' * d + r';
    assert (q - q') * d == r' - r;
    if q > q' {
      MulNonNegative(q - q' - 1, d);
      assert false;
    } else if q < q' {
      MulNonNegative(q' - q - 1, d);
      assert false;
    }
  }

  /** Dividing by a positive number never increases a non-negative integer. */
  lemma DivAtMost(x: nat, d: int)
    requires d > 0
    ensures x / d <= x
  {
    assert x == (x / d) * d + x % d;
    if x / d > x {
      MulNonNegative(x / d, d - 1);
      assert false;
    }
  }

  /** x < d * b gives x / d < b. */
  lemma DivBelow(x: nat, d: int, b: int)
    requires d > 0 && x < d * b
    ensures x / d < b
  {
    assert x == (x / d) * d + x % d;
    if x / d >= b {
      MulNonNegative(x / d - b, d);
      assert false;
    }
  }

  /** x >= q * d gives x / d >= q. */
  lemma DivAtLeast(x: nat, d: int, q: int)
    requires d > 0 && x >= q * d
    ensures x / d >= q
  {
    assert x == (x / d) * d + x % d;
    if x / d < q {
      MulNonNegative(q - x / d - 1, d);
      assert false;
    }
  }

  /** Adding a multiple of d does not change the remainder modulo d. */
  lemma ModAddMultiple(x: int, t: int, d: int)
    requires d > 0
    ensures (x + t * d) % d == x % d
  {
    DivModUnique(x + t * d, d, x / d + t, x % d);
  }

  /** Two integers closer together than d have different remainders modulo d. */
  lemma ModDistinct(a: int, b: int, d: int)
    requires d > 0 && a < b < a + d
    ensures a % d != b % d
  {
    var qa, qb := a / d, b / d;
    assert a == qa * d + a % d && b == qb * d + b % d;
    if a % d == b % d {
      assert (qb - qa) * d == b - a;
      if qb - qa >= 1 {
        MulNonNegative(qb - qa - 1, d);
      } else {
        MulNonNegative(qa - qb, d);
      }
      assert false;
    }
  }

  /** The position of base + j on a ring of d slots, from the position of base. */
  lemma RingSlot(base: int, j: int, d: int)
    requires d > 0 && 0 <= j < d
    ensures (base + j) % d == if base % d + j < d then base % d + j else base % d + j - d
  {
    if base % d + j < d {
      DivModUnique(base + j, d, base / d, base % d + j);
    } else {
      DivModUnique(base + j, d, base / d + 1, base % d + j - d);
    }
  }

  lemma {:induction false} Pow2Add(a: nat, b: nat)
    ensures Pow2(a + b) == Pow2(a) * Pow2(b)
  {
    if a > 0 {
      Pow2Add(a - 1, b);
    }
  }

  /** The powers of two that the 32-bit code relies on. */
  lemma Pow2Values()
    ensures Pow2(4) == 16 && Pow2(8) == 0x100 && Pow2(16) == 0x1_0000
    ensures Pow2(31) == 0x8000_0000 && Pow2(32) == U32_LIMIT
  {
    assert Pow2(2) == 4 by { assert Pow2(1) == 2; }
    assert Pow2(4) == 16 by { Pow2Add(2, 2); }
    assert Pow2(8) == 0x100 by { Pow2Add(4, 4); }
    assert Pow2(16) == 0x1_0000 by { Pow2Add(8, 8); }
    assert Pow2(32) == U32_LIMIT by { Pow2Add(16, 16); }
    assert Pow2(32) == 2 * Pow2(31);
  }

  lemma {:induction false} Pow2Monotone(a: nat, b: nat)
    requires a <= b
    ensures Pow2(a) <= Pow2(b)
  {
    if a < b {
      Pow2Monotone(a, b - 1);
    }
  }

  lemma {:induction false} Pow2IsPowerOfTwo(k: nat)
    ensures IsPowerOfTwo(Pow2(k))
  {
    if k > 0 {
      Pow2IsPowerOfTwo(k - 1);
      assert Pow2(k) / 2 == Pow2(k - 1);
    }
  }

  /** A power of two divides every larger power of two. */
  lemma PowerOfTwoMultiple(p: int, q: int) returns (c: nat)
    requires IsPowerOfTwo(p) && IsPowerOfTwo(q) && p <= q
    ensures q == c * p
  {
    var a, b := Log2(p), Log2(q);
    if a > b {
      Pow2Monotone(b + 1, a);
      assert false;
    }
    Pow2Add(a, b - a);
    c := Pow2(b - a);
  }

  /** A power of two no larger than 2^32 divides 2^32. */
  lemma PowerOfTwoDividesLimit(d: int) returns (c: nat)
    requires IsPowerOfTwo(d) && d <= U32_LIMIT
    ensures d * c == U32_LIMIT
  {
    var k := Log2(d);
    Pow2Values();
    if k > 32 {
      Pow2Monotone(33, k);
      assert false;
    }
    Pow2Add(k, 32 - k);
    c := Pow2(32 - k);
  }

  /** Reducing modulo 2^32 keeps the remainder modulo any power of two up to 2^32. */
  lemma WrapKeepsRemainder(x: int, j: int, d: int)
    requires IsPowerOfTwo(d) && d <= U32_LIMIT
    ensures (Wrap(x) + j) % d == (x + j) % d
  {
    var c := PowerOfTwoDividesLimit(d);
    var t := x / U32_LIMIT;
    assert x == t * U32_LIMIT + Wrap(x);
    assert t * U32_LIMIT == (t * c) * d;
    ModAddMultiple(Wrap(x) + j, t * c, d);
  }

  // ---------------------------------------------------------------------------
  // Bit operators

  lemma {:induction false} AndWithZero(a: nat)
    ensures And(a, 0) == 0
    decreases a
  {
    if a > 0 {
      AndWithZero(a / 2);
    }
  }

  lemma {:induction false} ZeroAnd(b: nat)
    ensures And(0, b) == 0
    decreases b
  {
    if b > 0 {
      ZeroAnd(b / 2);
    }
  }

  lemma {:induction false} AndWithSelf(a: nat)
    ensures And(a, a) == a
    decreases a
  {
    if a > 0 {
      AndWithSelf(a / 2);
    }
  }

  /** The remainder modulo 2p, from the remainder of x / 2 modulo p and the lowest bit. */
  lemma ModDouble(x: nat, p: int)
    requires p > 0
    ensures x % (2 * p) == 2 * ((x / 2) % p) + x % 2
  {
    var q := (x / 2) / p;
    assert x / 2 == q * p + (x / 2) % p;
    assert x == 2 * (x / 2) + x % 2;
    assert x == q * (2 * p) + (2 * ((x / 2) % p) + x % 2);
    DivModUnique(x, 2 * p, q, 2 * ((x / 2) % p) + x % 2);
  }

  /** Masking with an odd value keeps the lowest bit and masks the rest with its upper part. */
  lemma AndOddMask(x: nat, m: nat)
    requires m % 2 == 1
    ensures And(x, m) == 2 * And(x / 2, m / 2) + x % 2
  {
  }

  /** One induction step of AndLowMask: from the mask p - 1 on x / 2 to the mask 2p - 1 on x. */
  lemma MaskStep(x: nat, p: nat)
    requires p >= 1 && And(x / 2, p - 1) == (x / 2) % p
    ensures And(x, 2 * p - 1) == x % (2 * p)
  {
    var m := 2 * p - 1;
    DivModUnique(m, 2, p - 1, 1);
    AndOddMask(x, m);
    ModDouble(x, p);
  }

  /** Masking with 2^k - 1 keeps the k low bits: `x & (2^k - 1) == x % 2^k`. */
  lemma {:induction false} AndLowMask(x: nat, k: nat)
    ensures And(x, Pow2(k) - 1) == x % Pow2(k)
  {
    if k == 0 {
      assert Pow2(k) == 1;
      AndWithZero(x);
      DivModUnique(x, 1, x, 0);
    } else {
      var p := Pow2(k - 1);
      assert Pow2(k) == 2 * p;
      AndLowMask(x / 2, k - 1);
      MaskStep(x, p);
    }
  }

  /** For a power of two d, `c & (d - 1)` is the offset of c on a ring of d slots. */
  lemma MaskIsMod(c: nat, d: int)
    requires IsPowerOfTwo(d)
    ensures And(c, d - 1) == c % d
  {
    AndLowMask(c, Log2(d));
  }

  /** The test `x & (x - 1) == 0` recognises exactly the powers of two among positive x. */
  lemma {:induction false} PowerOfTwoByMask(x: nat)
    requires x > 0
    ensures IsPowerOfTwo(x) <==> And(x, x - 1) == 0
    decreases x
  {
    if x == 1 {
      AndWithZero(1);
    } else if x % 2 == 1 {
      assert (x - 1) / 2 == x / 2;
      AndWithSelf(x / 2);
      assert And(x, x - 1) == 2 * (x / 2);
    } else {
      assert (x - 1) / 2 == x / 2 - 1 && (x - 1) % 2 == 1;
      assert And(x, x - 1) == 2 * And(x / 2, x / 2 - 1);
      PowerOfTwoByMask(x / 2);
    }
  }

  lemma OrStep(a: nat, b: nat)
    ensures Or(a, b) == 2 * Or(a / 2, b / 2) + (if a % 2 == 1 || b % 2 == 1 then 1 else 0)
  {
    if a == 0 && b == 0 {
      assert Or(0, 0) == 0;
    }
  }

  lemma {:induction false} OrWithZero(a: nat)
    ensures Or(a, 0) == a
    decreases a
  {
    if a > 0 {
      OrWithZero(a / 2);
    }
  }

  /** `a | b` has every bit of a and of b, so it is at least as large as either. */
  lemma {:induction false} OrAtLeast(a: nat, b: nat)
    ensures a <= Or(a, b) && b <= Or(a, b)
    decreases a + b
  {
    if a != 0 || b != 0 {
      OrAtLeast(a / 2, b / 2);
    }
  }

  /** `a | b` sets no bit at or above position k that neither a nor b has. */
  lemma {:induction false} OrBelow(a: nat, b: nat, k: nat)
    requires a < Pow2(k) && b < Pow2(k)
    ensures Or(a, b) < Pow2(k)
  {
    if a != 0 || b != 0 {
      OrBelow(a / 2, b / 2, k - 1);
    }
  }

  /** One induction step of OrHigh: high part c above the bits of x / 2 and y / 2, doubled. */
  lemma OrHighStep(c: nat, p: nat, x: nat, y: nat)
    requires p >= 1 && x < 2 * p && y < 2 * p
    requires Or(c + x / 2, y / 2) == c + Or(x / 2, y / 2)
    ensures Or(2 * c + x, y) == 2 * c + Or(x, y)
  {
    var a := 2 * c + x;
    DivModUnique(a, 2, c + x / 2, x % 2);
    OrStep(a, y);
    OrStep(x, y);
  }

  /** Bits at or above position k pass through `| y` untouched when y < 2^k. */
  lemma {:induction false} OrHigh(h: nat, k: nat, x: nat, y: nat)
    requires x < Pow2(k) && y < Pow2(k)
    ensures Or(h * Pow2(k) + x, y) == h * Pow2(k) + Or(x, y)
  {
    if k == 0 {
      assert Pow2(k) == 1 && x == 0 && y == 0;
      OrWithZero(h);
      OrWithZero(0);
    } else {
      var p := Pow2(k - 1);
      assert Pow2(k) == 2 * p;
      OrHigh(h, k - 1, x / 2, y / 2);
      MulDouble(h, p);
      MulNonNegative(h, p);
      OrHighStep(h * p, p, x, y);
    }
  }

  lemma {:induction false} BitLengthBounds(m: nat)
    ensures m < Pow2(BitLength(m))
    ensures m > 0 ==> Pow2(BitLength(m) - 1) <= m
  {
    if m > 0 {
      BitLengthBounds(m / 2);
    }
  }

  lemma {:induction false} BitLengthAtMost(m: nat, k: nat)
    requires m < Pow2(k)
    ensures BitLength(m) <= k
  {
    if m > 0 {
      BitLengthAtMost(m / 2, k - 1);
    }
  }
}
