/**
 * The integer helpers of the tool header: minimum and maximum, alignment to a
 * multiple, and rounding a uint32_t up to a power of two by bit smearing.
 */
module ZTool {
  import opened Machine

  /** Z_TOOL_MIN(a, b) */
  function Min(a: int, b: int): (r: int)
    ensures r <= a && r <= b
    ensures r == a || r == b
  {
    if a > b then b else a
  }

  /** Z_TOOL_MAX(a, b) */
  function Max(a: int, b: int): (r: int)
    ensures r >= a && r >= b
    ensures r == a || r == b
  {
    if a > b then a else b
  }

  /** Z_TOOL_ALIGN_UP(num, align): the least multiple of align that is at least num. */
  function AlignUp(num: nat, align: nat): (r: nat)
    requires align > 0
    ensures r % align == 0
    ensures num <= r < num + align
    ensures r == num <==> num % align == 0
  {
    if num % align > 0 then
      DivModUnique(num + (align - num % align), align, num / align + 1, 0);
      num + (align - num % align)
    else
      num
  }

  /** Z_TOOL_ALIGN_DOWN(num, align): the greatest multiple of align that is at most num. */
  function AlignDown(num: nat, align: nat): (r: nat)
    requires align > 0
    ensures r % align == 0
    ensures r <= num && num - align < r
  {
    DivModUnique(num - num % align, align, num / align, 0);
    num - num % align
  }

  /** Z_TOOL_ALIGN_SYS(a), where longSize is sizeof(long) on the target. */
  function AlignSys(a: nat, longSize: nat): (r: nat)
    requires longSize == 4 || longSize == 8
    ensures r == AlignUp(a, longSize)
  {
    if a % longSize != 0 then a + (longSize - a % longSize) else a
  }

  /**
   * The five `n |= n >> k` steps of Z_TOOL_roundup_pow_of_two, for k = 1, 2, 4,
   * 8 and 16: step i (from 0 to 4) shifts by 2^i. On a uint32_t they copy the
   * highest set bit into every lower bit. The steps only ever set bits, so
   * the value never decreases, and zero stays zero.
   */
  function SmearFrom(s: nat, i: nat): (r: nat)
    ensures s <= r
    ensures s == 0 ==> r == 0
    decreases 5 - i
  {
    if i >= 5 then s
    else
      OrAtLeast(s, Shr(s, Pow2(i)));
      OrWithZero(0);
      SmearFrom(Or(s, Shr(s, Pow2(i))), i + 1)
  }

  /**
   * All five steps applied to the uint32_t m (n - 1 in Z_TOOL_roundup_pow_of_two):
   * all ones up to and including the highest set bit of m, 0 for 0.
   */
  function Smear(m: u32): (r: nat)
    ensures r == Pow2(BitLength(m)) - 1
  {
    SmearFromStart(m);
    SmearFrom(m, 0)
  }

  /** s in [(a-1)*lo, a*lo) splits into its top part (a-1)*lo and a remainder below lo. */
  lemma SplitTop(s: nat, a: int, lo: int)
    requires a >= 1 && lo >= 1
    requires a * lo - lo <= s < a * lo
    ensures (a - 1) * lo == a * lo - lo
    ensures 0 <= s - (a - 1) * lo < lo
    ensures s / a < lo
  {
    assert (a - 1) * lo == a * lo - lo;
    DivBelow(s, a, lo);
  }

  /** Shifting by w when 2w <= len: the shifted value keeps the top w bits of lo - 1 set. */
  lemma ShiftedLowerHalf(s: nat, a: int, b: int, lo: int)
    requires a >= 1 && b >= 1 && lo == a * b
    requires s >= a * lo - lo
    ensures s / a >= lo - b
  {
    assert a * lo - lo == ((a - 1) * b) * a;
    DivAtLeast(s, a, (a - 1) * b);
    assert (a - 1) * b == lo - b;
  }

  /** Shifting by w when 2w > len: the shifted value is at least lo - 1. */
  lemma ShiftedLowerAll(s: nat, a: int, lo: int)
    requires a >= 1 && 1 <= lo <= a
    requires s >= a * lo - lo
    ensures s / a >= lo - 1
  {
    assert a * lo - lo >= a * lo - a == (lo - 1) * a;
    DivAtLeast(s, a, lo - 1);
  }

  /** With its top bits all set above bit k, s | y keeps them and adds y's bits below. */
  lemma OrTopBits(s: nat, y: nat, a: int, lo: int, k: nat)
    requires lo == Pow2(k) && a >= 1
    requires a * lo - lo <= s < a * lo && y < lo
    ensures Or(s, y) >= a * lo - lo + y
  {
    SplitTop(s, a, lo);
    var x := s - (a - 1) * lo;
    OrHigh(a - 1, k, x, y);
    OrAtLeast(x, y);
  }

  /**
   * One smearing step. The invariant is that the top w of the len significant
   * bits of s are all set; `s | s >> k` doubles that count (up to len) when k == w,
   * and keeps an all-ones value all-ones.
   */
  lemma SmearStep(s: nat, len: nat, w: nat, k: nat)
    requires 1 <= w <= len && 1 <= k
    requires k == w || w == len
    requires Pow2(len) - Pow2(len - w) <= s < Pow2(len)
    ensures Pow2(len) - Pow2(len - Min(w + k, len)) <= Or(s, Shr(s, k)) < Pow2(len)
  {
    var y := Shr(s, k);
    DivAtMost(s, Pow2(k));
    OrBelow(s, y, len);
    OrAtLeast(s, y);
    if w < len {
      var a := Pow2(w);
      var lo := Pow2(len - w);
      Pow2Add(w, len - w);
      SplitTop(s, a, lo);
      OrTopBits(s, y, a, lo, len - w);
      if 2 * w <= len {
        Pow2Add(w, len - 2 * w);
        assert w + (len - 2 * w) == len - w;
        ShiftedLowerHalf(s, a, Pow2(len - 2 * w), lo);
      } else {
        Pow2Monotone(len - w, w);
        ShiftedLowerAll(s, a, lo);
        assert len - Min(w + k, len) == 0;
      }
    }
  }

  /** Step i doubles the number of set top bits, from Min(2^i, len) to Min(2^(i+1), len). */
  lemma SmearStage(s: nat, len: nat, i: nat)
    requires 1 <= len
    requires Pow2(len) - Pow2(len - Min(Pow2(i), len)) <= s < Pow2(len)
    ensures Pow2(len) - Pow2(len - Min(Pow2(i + 1), len)) <= Or(s, Shr(s, Pow2(i))) < Pow2(len)
  {
    var k := Pow2(i);
    SmearStep(s, len, Min(k, len), k);
    assert Pow2(i + 1) == 2 * k;
  }

  /** From step i on, a value whose top Min(2^i, len) bits are set smears to all ones. */
  lemma {:induction false} SmearFromAllOnes(s: nat, len: nat, i: nat)
    requires 1 <= len <= 32 && i <= 5
    requires Pow2(len) - Pow2(len - Min(Pow2(i), len)) <= s < Pow2(len)
    ensures SmearFrom(s, i) == Pow2(len) - 1
    decreases 5 - i
  {
    if i < 5 {
      SmearStage(s, len, i);
      SmearFromAllOnes(Or(s, Shr(s, Pow2(i))), len, i + 1);
    } else {
      Pow2Values();
      assert Pow2(5) == 32;
    }
  }

  /** A non-zero uint32_t has between 1 and 32 significant bits, the top one set. */
  lemma SmearStart(m: nat)
    requires 0 < m < U32_LIMIT
    ensures 1 <= BitLength(m) <= 32
    ensures Pow2(BitLength(m)) - Pow2(BitLength(m) - Min(Pow2(0), BitLength(m))) <= m < Pow2(BitLength(m))
  {
    var len := BitLength(m);
    BitLengthBounds(m);
    Pow2Values();
    BitLengthAtMost(m, 32);
    assert Pow2(len) == 2 * Pow2(len - 1);
  }

  /** The five steps from step 0 leave all ones below and at the highest set bit of a uint32_t. */
  lemma SmearFromStart(m: nat)
    requires m < U32_LIMIT
    ensures SmearFrom(m, 0) == Pow2(BitLength(m)) - 1
  {
    if m == 0 {
      assert SmearFrom(0, 0) == 0 && Pow2(BitLength(0)) == 1;
    } else {
      SmearStart(m);
      SmearFromAllOnes(m, BitLength(m), 0);
    }
  }

  /** The power of two just above a value below 2^31 is at most 2^31. */
  lemma NextPowerAtMostHalf(m: nat)
    requires m < 0x8000_0000
    ensures Pow2(BitLength(m)) <= 0x8000_0000
  {
    Pow2Values();
    BitLengthAtMost(m, 31);
    Pow2Monotone(BitLength(m), 31);
  }

  /** The power of two just above m lies in (m, 2m + 2). */
  lemma NextPowerBounds(m: nat, p: nat)
    requires p == Pow2(BitLength(m))
    ensures m + 1 <= p < 2 * (m + 1)
  {
    BitLengthBounds(m);
    if BitLength(m) > 0 {
      assert p == 2 * Pow2(BitLength(m) - 1);
    }
  }

  /** Below 2^31, adding one to the smeared value gives the next power of two above m. */
  lemma SmearPlusOneBelow(m: nat)
    requires m < 0x8000_0000
    ensures IsPowerOfTwo(Wrap(Smear(m) + 1)) && m + 1 <= Wrap(Smear(m) + 1) < 2 * (m + 1)
  {
    AllOnesPlusOne(m, Smear(m));
  }

  /** One more than the all-ones value of m's bit length is the next power of two above m. */
  lemma AllOnesPlusOne(m: nat, s: nat)
    requires m < 0x8000_0000 && s == Pow2(BitLength(m)) - 1
    ensures IsPowerOfTwo(Wrap(s + 1)) && m + 1 <= Wrap(s + 1) < 2 * (m + 1)
  {
    var p := Pow2(BitLength(m));
    NextPowerAtMostHalf(m);
    WrapInRange(p);
    Pow2IsPowerOfTwo(BitLength(m));
    NextPowerBounds(m, p);
  }

  /** From 2^31 on, the smeared value is 0xFFFFFFFF and adding one wraps to 0. */
  lemma SmearPlusOneAbove(m: nat)
    requires 0x8000_0000 <= m < U32_LIMIT
    ensures Smear(m) == 0xFFFF_FFFF
    ensures Wrap(Smear(m) + 1) == 0
  {
    var len, s := BitLength(m), Smear(m);
    Pow2Values();
    BitLengthBounds(m);
    BitLengthAtMost(m, 32);
    if len <= 31 {
      Pow2Monotone(len, 31);
    }
    assert len == 32 && s == Pow2(32) - 1;
  }

  /** Adding one to the smeared value gives the next power of two, or 0 once it wraps. */
  lemma SmearPlusOne(m: nat)
    requires m < U32_LIMIT
    ensures m < 0x8000_0000 ==> IsPowerOfTwo(Wrap(Smear(m) + 1)) && m + 1 <= Wrap(Smear(m) + 1) < 2 * (m + 1)
    ensures m >= 0x8000_0000 ==> Wrap(Smear(m) + 1) == 0
  {
    if m < 0x8000_0000 {
      SmearPlusOneBelow(m);
    } else {
      SmearPlusOneAbove(m);
    }
  }

  /**
   * Z_TOOL_roundup_pow_of_two(n): 1 for 0; the least power of two that is at
   * least n for 1 <= n <= 2^31; and, because the 32-bit `n + 1` wraps once the
   * smeared value is 0xFFFFFFFF, 0 for every n above 2^31.
   */
  function RoundupPowOfTwo(n: u32): (r: u32)
    ensures n == 0 ==> r == 1
    ensures 0 < n <= 0x8000_0000 ==> IsPowerOfTwo(r) && n <= r < 2 * n
    ensures n > 0x8000_0000 ==> r == 0
  {
    if n == 0 then 1
    else
      SmearPlusOne(n - 1);
      Wrap(Smear(n - 1) + 1)
  }

  /** Two powers of two less than a factor of two apart are ordered. */
  lemma PowerOfTwoOrder(p: int, q: int)
    requires IsPowerOfTwo(p) && IsPowerOfTwo(q) && p < 2 * q
    ensures p <= q
  {
    var a, b := Log2(p), Log2(q);
    if a > b {
      Pow2Monotone(b + 1, a);
    }
  }

  /** No power of two at least n lies below the rounded value. */
  lemma RoundupIsLeast(n: u32, q: int)
    requires 0 < n <= 0x8000_0000
    requires IsPowerOfTwo(q) && n <= q
    ensures RoundupPowOfTwo(n) <= q
  {
    PowerOfTwoOrder(RoundupPowOfTwo(n), q);
  }

  /** The rounded value is the only power of two p with n <= p < 2n. */
  lemma RoundupIsUnique(n: u32, p: int)
    requires 0 < n <= 0x8000_0000
    requires IsPowerOfTwo(p) && n <= p < 2 * n
    ensures RoundupPowOfTwo(n) == p
  {
    var r := RoundupPowOfTwo(n);
    PowerOfTwoOrder(r, p);
    PowerOfTwoOrder(p, r);
  }

  /** A power of two is returned unchanged. */
  lemma RoundupKeepsPowerOfTwo(n: u32)
    requires IsPowerOfTwo(n)
    ensures RoundupPowOfTwo(n) == n
  {
    Pow2Values();
    Pow2IsPowerOfTwo(31);
    if n > 0x8000_0000 {
      PowerOfTwoOrder(n, 0x8000_0000);
      assert false;
    }
    RoundupIsUnique(n, n);
  }

  /** Two rounding examples: 100 rounds to 128 and 64 stays 64. */
  lemma RoundupExamples()
    ensures RoundupPowOfTwo(100) == 128
    ensures RoundupPowOfTwo(64) == 64
  {
    Pow2Values();
    Pow2IsPowerOfTwo(7);
    Pow2IsPowerOfTwo(6);
    assert Pow2(7) == 128 && Pow2(6) == 64;
    RoundupIsUnique(100, 128);
    RoundupIsUnique(64, 64);
  }
}
