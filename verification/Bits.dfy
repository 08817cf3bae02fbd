/**
 * The bit operations of the DEFLATE decoder on non-negative machine words, and `_ssfn__bitreverse16` as ssfn.h has it.
 * `Shr`, `Shl` and `Mask` are C's `x >> n`, `x << n` and `x & ((1 << n) - 1)`, one bit at a time.
 */
module BitOps {
  function Pow2(n: nat): (p: nat)
    ensures p >= 1
  {
    if n == 0 then 1 else 2 * Pow2(n - 1)
  }

  function Shr(x: nat, n: nat): nat {
    if n == 0 then x else Shr(x / 2, n - 1)
  }

  function Shl(x: nat, n: nat): nat {
    if n == 0 then x else 2 * Shl(x, n - 1)
  }

  function Mask(x: nat, n: nat): nat {
    if n == 0 then 0 else x % 2 + 2 * Mask(x / 2, n - 1)
  }

  function And(x: nat, y: nat): nat {
    if x == 0 || y == 0 then 0 else (if x % 2 == 1 && y % 2 == 1 then 1 else 0) + 2 * And(x / 2, y / 2)
  }

  function Or(x: nat, y: nat): nat {
    if x == 0 then y else if y == 0 then x
    else (if x % 2 == 1 || y % 2 == 1 then 1 else 0) + 2 * Or(x / 2, y / 2)
  }

  /** Bit `j` of `x`. */
  function BitOf(x: nat, j: nat): (b: nat)
    ensures b <= 1
  {
    if j == 0 then x % 2 else BitOf(x / 2, j - 1)
  }

  // ---- Shifts and masks

  /** `>>` and `<<` are division and multiplication by a power of two. */
  lemma {:induction false} ShrIsDivision(x: nat, n: nat)
    ensures Shr(x, n) == x / Pow2(n)
  {
    if n > 0 {
      ShrIsDivision(x / 2, n - 1);
      DivideTwice(x, Pow2(n - 1));
    }
  }

  lemma {:induction false} ShlIsProduct(x: nat, n: nat)
    ensures Shl(x, n) == x * Pow2(n)
  {
    if n > 0 {
      ShlIsProduct(x, n - 1);
      MulTwice(x, Pow2(n - 1));
    }
  }

  lemma MulTwice(x: nat, p: nat)
    ensures x * (2 * p) == 2 * (x * p)
  {
  }

  lemma DivideTwice(x: nat, d: nat)
    requires d > 0
    ensures x / 2 / d == x / (2 * d)
  {
    var y := x / 2;
    var q := y / d;
    assert y == q * d + y % d;
    assert x == q * (2 * d) + (2 * (y % d) + x % 2);
    DivideIs(x, 2 * d, q, 2 * (y % d) + x % 2);
  }

  lemma DivideIs(x: nat, d: nat, q: nat, r: nat)
    requires d > 0 && r < d && x == q * d + r
    ensures x / d == q
  {
    SameQuotient(x / d, x % d, q, r, d);
  }

  lemma SameQuotient(e: nat, m: nat, q: nat, r: nat, d: nat)
    requires m < d && r < d && e * d + m == q * d + r
    ensures e == q
  {
    if e < q {
      MulGap(e, q, d);
    } else if q < e {
      MulGap(q, e, d);
    }
  }

  lemma {:induction false} MulGap(e: nat, q: nat, d: nat)
    requires e < q
    ensures e * d + d <= q * d
    decreases q
  {
    assert q * d == (q - 1) * d + d;
    if e < q - 1 {
      MulGap(e, q - 1, d);
    }
  }

  lemma {:induction false} MaskBound(x: nat, n: nat)
    ensures Mask(x, n) < Pow2(n) && Mask(x, n) <= x
    ensures x < Pow2(n) ==> Mask(x, n) == x
  {
    if n > 0 {
      MaskBound(x / 2, n - 1);
    }
  }

  lemma {:induction false} SplitAtBit(x: nat, n: nat)
    ensures x == Mask(x, n) + Shl(Shr(x, n), n)
  {
    if n > 0 {
      SplitAtBit(x / 2, n - 1);
    }
  }

  lemma {:induction false} ShrAdd(x: nat, m: nat, n: nat)
    ensures Shr(Shr(x, m), n) == Shr(x, m + n)
  {
    if m > 0 {
      ShrAdd(x / 2, m - 1, n);
    }
  }

  lemma {:induction false} ShrShl(x: nat, n: nat)
    ensures Shr(Shl(x, n), n) == x
  {
    if n > 0 {
      ShrShl(x, n - 1);
    }
  }

  lemma {:induction false} ShrLess(x: nat, c: nat, n: nat)
    ensures Shr(x, n) < c <==> x < Shl(c, n)
  {
    if n > 0 {
      ShrLess(x / 2, c, n - 1);
    }
  }

  lemma {:induction false} ShlPow(m: nat, n: nat)
    ensures Shl(Pow2(m), n) == Pow2(m + n)
  {
    if n > 0 {
      ShlPow(m, n - 1);
    }
  }

  /** Numbers with the same low bits are a whole number of strides apart. */
  lemma {:induction false} MaskStride(x: nat, y: nat, n: nat)
    requires Mask(x, n) == Mask(y, n) && x < y
    ensures x + Pow2(n) <= y
  {
    if n > 0 {
      MaskStride(x / 2, y / 2, n - 1);
    }
  }

  lemma {:induction false} MaskNext(x: nat, n: nat)
    ensures Mask(x + Pow2(n), n) == Mask(x, n)
  {
    if n > 0 {
      assert (x + Pow2(n)) / 2 == x / 2 + Pow2(n - 1);
      MaskNext(x / 2, n - 1);
    }
  }

  // ---- Bitwise operations

  /** Masking with `(1 << n) - 1` keeps the low bits. */
  lemma {:induction false} AndMask(x: nat, n: nat)
    ensures And(x, Pow2(n) - 1) == Mask(x, n)
  {
    if n > 0 {
      assert (Pow2(n) - 1) / 2 == Pow2(n - 1) - 1;
      AndMask(x / 2, n - 1);
      MaskBound(x, n);
    }
  }

  /** Bits placed above the bits in use are added. */
  lemma {:induction false} OrAbove(x: nat, y: nat, n: nat)
    requires x < Pow2(n)
    ensures Or(x, Shl(y, n)) == x + Shl(y, n)
  {
    if n > 0 {
      OrAbove(x / 2, y, n - 1);
    }
  }

  lemma {:induction false} OrCommutes(x: nat, y: nat)
    ensures Or(x, y) == Or(y, x)
  {
    if x > 0 && y > 0 {
      OrCommutes(x / 2, y / 2);
    }
  }

  /** `&` and `|` work apart on the low `n` bits and on the others. */
  lemma {:induction false} AndSplit(x: nat, y: nat, n: nat)
    ensures And(x, y) == And(Mask(x, n), Mask(y, n)) + Shl(And(Shr(x, n), Shr(y, n)), n)
  {
    if n > 0 {
      AndSplit(x / 2, y / 2, n - 1);
    }
  }

  lemma {:induction false} OrSplit(x: nat, y: nat, n: nat)
    ensures Or(x, y) == Or(Mask(x, n), Mask(y, n)) + Shl(Or(Shr(x, n), Shr(y, n)), n)
  {
    if n > 0 {
      OrSplit(x / 2, y / 2, n - 1);
    }
  }

  /** The two parts of a number that is given by them. */
  lemma {:induction false} PartsOf(low: nat, high: nat, n: nat)
    requires low < Pow2(n)
    ensures Mask(low + Shl(high, n), n) == low && Shr(low + Shl(high, n), n) == high
  {
    if n > 0 {
      assert (low + Shl(high, n)) / 2 == low / 2 + Shl(high, n - 1);
      PartsOf(low / 2, high, n - 1);
    }
  }

  /** `x | (1 << n)` sets a bit, and `x & ~(1 << n)` clears it, in words of `w` bits. */
  lemma {:induction false} OrBit(x: nat, n: nat)
    ensures Or(x, Pow2(n)) == if BitOf(x, n) == 1 then x else x + Pow2(n)
  {
    if n > 0 {
      OrBit(x / 2, n - 1);
    } else {
      OrZero(x / 2);
    }
  }

  lemma OrZero(x: nat)
    ensures Or(x, 0) == x
  {
  }

  lemma {:induction false} AndNotBit(x: nat, n: nat, w: nat)
    requires x < Pow2(w) && n < w
    ensures Pow2(n) < Pow2(w) && BitOf(x, n) <= 1
    ensures And(x, Pow2(w) - 1 - Pow2(n)) == if BitOf(x, n) == 1 then x - Pow2(n) else x
  {
    var y := Pow2(w) - 1 - Pow2(n);
    if n > 0 {
      AndNotBit(x / 2, n - 1, w - 1);
      assert y % 2 == 1 && y / 2 == Pow2(w - 1) - 1 - Pow2(n - 1);
    } else {
      assert y % 2 == 0 && y / 2 == Pow2(w - 1) - 1;
      AndMask(x / 2, w - 1);
      MaskBound(x / 2, w - 1);
    }
  }

  lemma {:induction false} BitOfAnd(x: nat, y: nat, j: nat)
    ensures BitOf(And(x, y), j) == if BitOf(y, j) == 1 then BitOf(x, j) else 0
  {
    BitOfZero(j);
    if j > 0 {
      BitOfAnd(x / 2, y / 2, j - 1);
    }
  }

  lemma {:induction false} BitOfOr(x: nat, y: nat, j: nat)
    ensures BitOf(Or(x, y), j) == (if BitOf(x, j) == 1 then 1 else BitOf(y, j))
  {
    BitOfZero(j);
    if j > 0 {
      BitOfOr(x / 2, y / 2, j - 1);
    }
  }

  lemma {:induction false} BitOfZero(j: nat)
    ensures BitOf(0, j) == 0
  {
    if j > 0 {
      BitOfZero(j - 1);
    }
  }

  lemma {:induction false} BitOfShr(x: nat, n: nat, j: nat)
    ensures BitOf(Shr(x, n), j) == BitOf(x, j + n)
  {
    if n > 0 {
      BitOfShr(x / 2, n - 1, j);
    }
  }

  lemma {:induction false} BitOfShl(x: nat, n: nat, j: nat)
    ensures BitOf(Shl(x, n), j) == if j < n then 0 else BitOf(x, j - n)
  {
    if n > 0 && j > 0 {
      BitOfShl(x, n - 1, j - 1);
    }
  }

  // ---- Reversal

  /** The low `n` bits of `x` in the opposite order. */
  function Flip(x: nat, n: nat): nat {
    if n == 0 then 0 else Shl(x % 2, n - 1) + Flip(x / 2, n - 1)
  }

  function SwapBits(x: nat, high: nat, low: nat, n: nat): nat {
    Or(Shr(And(x, high), n), Shl(And(x, low), n))
  }

  function BitReverse16(n: nat): nat {
    var n := SwapBits(n, 0xAAAA, 0x5555, 1);
    var n := SwapBits(n, 0xCCCC, 0x3333, 2);
    var n := SwapBits(n, 0xF0F0, 0x0F0F, 4);
    SwapBits(n, 0xFF00, 0x00FF, 8)
  }

  /** `_ssfn__bit_reverse` */
  function BitReverse(v: nat, bits: nat): nat
    requires bits <= 16
  {
    Shr(BitReverse16(v), 16 - bits)
  }

  lemma {:induction false} BitOfFlip(x: nat, n: nat, j: nat)
    ensures Flip(x, n) < Pow2(n)
    ensures BitOf(Flip(x, n), j) == if j < n then BitOf(x, n - 1 - j) else 0
  {
    BitOfZero(j);
    if n > 0 {
      BitOfFlip(x / 2, n - 1, j);
      TopBit(Flip(x / 2, n - 1), x % 2, n - 1, j);
    }
  }

  lemma {:induction false} TopBit(x: nat, b: nat, n: nat, j: nat)
    requires x < Pow2(n) && b <= 1
    ensures x + Shl(b, n) < Pow2(n + 1)
    ensures BitOf(x + Shl(b, n), j) == if j == n then b else BitOf(x, j)
  {
    BitOfZero(j);
    if n == 0 {
      if j > 0 {
        BitOfZero(j - 1);
      }
    } else {
      assert (x + Shl(b, n)) / 2 == x / 2 + Shl(b, n - 1);
      TopBit(x / 2, b, n - 1, if j > 0 then j - 1 else 0);
    }
  }

  /** A number below 2^n is determined by its bits. */
  lemma {:induction false} SameBits(x: nat, y: nat, n: nat)
    requires x < Pow2(n) && y < Pow2(n)
    requires forall j | 0 <= j < n :: BitOf(x, j) == BitOf(y, j)
    ensures x == y
  {
    if n > 0 {
      assert BitOf(x, 0) == BitOf(y, 0);
      forall j | 0 <= j < n - 1
        ensures BitOf(x / 2, j) == BitOf(y / 2, j)
      {
        assert BitOf(x, j + 1) == BitOf(y, j + 1);
      }
      SameBits(x / 2, y / 2, n - 1);
    }
  }

  /** What a swap under complementary masks does to bit `j`. */
  lemma BitOfSwap(x: nat, high: nat, low: nat, n: nat, j: nat)
    ensures BitOf(SwapBits(x, high, low, n), j)
         == if BitOf(x, j + n) == 1 && BitOf(high, j + n) == 1 then 1
            else if j >= n && BitOf(low, j - n) == 1 then BitOf(x, j - n) else 0
  {
    BitOfOr(Shr(And(x, high), n), Shl(And(x, low), n), j);
    BitOfShr(And(x, high), n, j);
    BitOfShl(And(x, low), n, j);
    BitOfAnd(x, high, j + n);
    if j >= n {
      BitOfAnd(x, low, j - n);
    }
  }

  /** Which of two alternating runs of `d` bits bit `j` belongs to. */
  function RunOf(j: nat, d: nat): nat
    requires d > 0
  {
    j / d % 2
  }

  /** The bits from `i` of the 16-bit mask whose ones are the runs of `d` bits of one parity. */
  function RunMask(d: nat, first: nat, i: nat): nat
    requires d > 0 && i <= 16
    decreases 16 - i
  {
    if i == 16 then 0 else (if RunOf(i, d) == first then 1 else 0) + 2 * RunMask(d, first, i + 1)
  }

  lemma {:induction false} BitOfRunMask(d: nat, first: nat, i: nat, j: nat)
    requires d > 0 && i <= 16
    ensures BitOf(RunMask(d, first, i), j) == if i + j < 16 && RunOf(i + j, d) == first then 1 else 0
    decreases 16 - i
  {
    hide RunOf;
    if i == 16 {
      BitOfZero(j);
    } else if j == 0 {
      assert RunMask(d, first, i) % 2 == if RunOf(i, d) == first then 1 else 0;
    } else {
      assert RunMask(d, first, i) / 2 == RunMask(d, first, i + 1);
      BitOfRunMask(d, first, i + 1, j - 1);
    }
  }

  predicate RunLength(n: nat)
    ensures RunLength(n) ==> n > 0
  {
    n == 1 || n == 2 || n == 4 || n == 8
  }

  lemma Neighbours(n: nat, j: nat)
    requires RunLength(n)
    ensures j + n < 16 && RunOf(j + n, n) == 1 <==> j < 16 && RunOf(j, n) == 0
    ensures j >= n ==> (j - n < 16 && RunOf(j - n, n) == 0 <==> j < 16 && RunOf(j, n) == 1)
    ensures j < n ==> j < 16 && RunOf(j, n) == 0
    ensures RunOf(j, n) <= 1
  {
    hide *;
    NextRun(n, j);
    if j >= n {
      NextRun(n, j - n);
    }
  }

  lemma NextRun(n: nat, j: nat)
    requires RunLength(n)
    ensures n <= 8 && RunOf(j, n) <= 1 && RunOf(j + n, n) == 1 - RunOf(j, n)
    ensures RunOf(j, n) == 1 && j < 16 ==> n <= j
    ensures RunOf(j, n) == 0 && j < 16 ==> j + n < 16
    ensures j < n ==> RunOf(j, n) == 0
    ensures j < 16 <= j + n ==> RunOf(j, n) == 1
  {
    NextQuotient(n, j);
    var q := j / n;
    assert (q + 1) % 2 == 1 - q % 2;
  }

  lemma NextQuotient(n: nat, j: nat)
    requires RunLength(n)
    ensures (j + n) / n == j / n + 1
  {
    if n == 1 {
    } else if n == 2 {
    } else if n == 4 {
    } else {
      assert n == 8;
    }
  }

  /** Where bit `j` comes from when the swaps by 8, 4, 2 and 1 are followed backwards. */
  function Origin(j: nat, n: nat): int
    requires n > 0
  {
    if RunOf(j, n) == 0 then j + n else j - n
  }

  /** A swap of neighbouring runs of `n` bits. */
  function Swap(x: nat, n: nat): nat
    requires n > 0
  {
    SwapBits(x, RunMask(n, 1, 0), RunMask(n, 0, 0), n)
  }

  lemma SwapUnfolds(x: nat, n: nat)
    requires n > 0
    ensures Swap(x, n) == SwapBits(x, RunMask(n, 1, 0), RunMask(n, 0, 0), n)
  {
  }

  lemma OriginUnfolds(j: nat, n: nat)
    requires n > 0
    ensures Origin(j, n) == if RunOf(j, n) == 0 then j + n else j - n
  {
  }

  lemma SwapBelow(x: nat, n: nat, j: nat)
    requires RunLength(n) && j < 16 && RunOf(j, n) == 0
    ensures Origin(j, n) == j + n && BitOf(Swap(x, n), j) == BitOf(x, j + n)
  {
    hide *;
    SwapUnfolds(x, n);
    OriginUnfolds(j, n);
    Neighbours(n, j);
    BitOfSwap(x, RunMask(n, 1, 0), RunMask(n, 0, 0), n, j);
    BitOfRunMask(n, 1, 0, j + n);
    if j >= n {
      BitOfRunMask(n, 0, 0, j - n);
    }
  }

  lemma SwapAbove(x: nat, n: nat, j: nat)
    requires RunLength(n) && j < 16 && RunOf(j, n) != 0
    ensures Origin(j, n) == j - n >= 0 && BitOf(Swap(x, n), j) == BitOf(x, j - n)
  {
    hide *;
    SwapUnfolds(x, n);
    OriginUnfolds(j, n);
    Neighbours(n, j);
    BitOfSwap(x, RunMask(n, 1, 0), RunMask(n, 0, 0), n, j);
    BitOfRunMask(n, 1, 0, j + n);
    BitOfRunMask(n, 0, 0, j - n);
  }

  lemma SwapPast(x: nat, n: nat, j: nat)
    requires RunLength(n) && j >= 16
    ensures BitOf(Swap(x, n), j) == 0
  {
    hide *;
    SwapUnfolds(x, n);
    OriginUnfolds(j, n);
    Neighbours(n, j);
    BitOfSwap(x, RunMask(n, 1, 0), RunMask(n, 0, 0), n, j);
    BitOfRunMask(n, 1, 0, j + n);
    BitOfRunMask(n, 0, 0, j - n);
  }

  lemma SwapMoves(x: nat, n: nat, j: nat)
    requires RunLength(n) && j < 16
    ensures Origin(j, n) >= 0 && BitOf(Swap(x, n), j) == BitOf(x, Origin(j, n))
  {
    hide *;
    if RunOf(j, n) == 0 {
      SwapBelow(x, n, j);
    } else {
      SwapAbove(x, n, j);
    }
  }

  lemma Masks1()
    ensures RunMask(1, 1, 0) == 0xAAAA && RunMask(1, 0, 0) == 0x5555
  {
    assert RunMask(1, 1, 12) == 0xA;
    assert RunMask(1, 1, 8) == 0xAA;
    assert RunMask(1, 1, 4) == 0xAAA;
    assert RunMask(1, 0, 12) == 0x5;
    assert RunMask(1, 0, 8) == 0x55;
    assert RunMask(1, 0, 4) == 0x555;
  }

  lemma Masks2()
    ensures RunMask(2, 1, 0) == 0xCCCC && RunMask(2, 0, 0) == 0x3333
  {
    assert RunMask(2, 1, 12) == 0xC;
    assert RunMask(2, 1, 8) == 0xCC;
    assert RunMask(2, 1, 4) == 0xCCC;
    assert RunMask(2, 0, 12) == 0x3;
    assert RunMask(2, 0, 8) == 0x33;
    assert RunMask(2, 0, 4) == 0x333;
  }

  lemma Masks4()
    ensures RunMask(4, 1, 0) == 0xF0F0 && RunMask(4, 0, 0) == 0x0F0F
  {
    assert RunMask(4, 1, 12) == 0xF;
    assert RunMask(4, 1, 8) == 0xF0;
    assert RunMask(4, 1, 4) == 0xF0F;
    assert RunMask(4, 0, 12) == 0x0;
    assert RunMask(4, 0, 8) == 0xF;
    assert RunMask(4, 0, 4) == 0xF0;
  }

  lemma Masks8()
    ensures RunMask(8, 1, 0) == 0xFF00 && RunMask(8, 0, 0) == 0x00FF
  {
    assert RunMask(8, 1, 12) == 0xF;
    assert RunMask(8, 1, 8) == 0xFF;
    assert RunMask(8, 1, 4) == 0xFF0;
    assert RunMask(8, 0, 12) == 0x0;
    assert RunMask(8, 0, 8) == 0x0;
    assert RunMask(8, 0, 4) == 0xF;
  }

  lemma ReverseIsSwaps(x: nat)
    ensures BitReverse16(x) == Swap(Swap(Swap(Swap(x, 1), 2), 4), 8)
  {
    Masks1();
    Masks2();
    Masks4();
    Masks8();
    hide RunMask, SwapBits;
  }

  /** The four swaps reverse the low 16 bits, whatever lies above them. */
  lemma SwapsReverse(x: nat, j: nat)
    ensures BitOf(BitReverse16(x), j) == if j < 16 then BitOf(x, 15 - j) else 0
  {
    ReverseIsSwaps(x);
    assert RunLength(8) && RunLength(4) && RunLength(2) && RunLength(1);
    hide *;
    var a := Swap(x, 1);
    var b := Swap(a, 2);
    var c := Swap(b, 4);
    if j >= 16 {
      SwapPast(c, 8, j);
    } else {
      Mirror(j);
      var j8 := Origin(j, 8);
      SwapMoves(c, 8, j);
      SwapMoves(b, 4, j8);
      var j4 := Origin(j8, 4);
      SwapMoves(a, 2, j4);
      SwapMoves(x, 1, Origin(j4, 2));
    }
  }

  lemma Mirror(j: nat)
    requires j < 16
    ensures 0 <= Origin(j, 8) < 16
    ensures 0 <= Origin(Origin(j, 8), 4) < 16
    ensures 0 <= Origin(Origin(Origin(j, 8), 4), 2) < 16
    ensures Origin(Origin(Origin(Origin(j, 8), 4), 2), 1) == 15 - j
  {
    assert 0 <= Origin(j, 8) < 16;
    var k := Origin(j, 8);
    assert 0 <= Origin(k, 4) < 16;
    var l := Origin(k, 4);
    assert 0 <= Origin(l, 2) < 16;
    var m := Origin(l, 2);
    assert 0 <= Origin(m, 1) < 16;
  }

  lemma {:induction false} BelowPow(x: nat, n: nat)
    requires forall j :: j >= n ==> BitOf(x, j) == 0
    ensures x < Pow2(n)
    decreases x, n
  {
    if n > 0 {
      forall j | j >= n - 1
        ensures BitOf(x / 2, j) == 0
      {
        assert BitOf(x, j + 1) == 0;
      }
      BelowPow(x / 2, n - 1);
    } else if x > 0 {
      assert BitOf(x, 0) == 0;
      forall j: nat
        ensures BitOf(x / 2, j) == 0
      {
        assert BitOf(x, j + 1) == 0;
      }
      BelowPow(x / 2, 0);
    }
  }

  /** `_ssfn__bitreverse16` reverses the low 16 bits. */
  lemma BitReverse16IsFlip(x: nat)
    ensures BitReverse16(x) == Flip(x, 16)
  {
    forall j: nat
      ensures BitOf(BitReverse16(x), j) == BitOf(Flip(x, 16), j)
      ensures j >= 16 ==> BitOf(BitReverse16(x), j) == 0
    {
      SwapsReverse(x, j);
      BitOfFlip(x, 16, j);
    }
    BitOfFlip(x, 16, 0);
    hide *;
    BelowPow(BitReverse16(x), 16);
    SameBits(BitReverse16(x), Flip(x, 16), 16);
  }

  /** `_ssfn__bit_reverse` reverses the low `bits` bits. */
  lemma BitReverseIsFlip(v: nat, bits: nat)
    requires bits <= 16
    ensures BitReverse(v, bits) == Flip(v, bits)
  {
    BitReverse16IsFlip(v);
    FlipShr(v, bits, 16 - bits);
  }

  lemma {:induction false} FlipShr(v: nat, n: nat, m: nat)
    ensures Shr(Flip(v, n + m), m) == Flip(v, n)
  {
    if n == 0 {
      BitOfFlip(v, m, 0);
      ShrLess(Flip(v, m), 1, m);
      ShlPow(0, m);
    } else {
      FlipShr(v / 2, n - 1, m);
      ShrSum(v % 2, Flip(v / 2, n - 1 + m), n - 1, m);
    }
  }

  lemma {:induction false} ShrSum(b: nat, x: nat, n: nat, m: nat)
    ensures Shr(Shl(b, n + m) + x, m) == Shl(b, n) + Shr(x, m)
  {
    if m > 0 {
      assert (Shl(b, n + m) + x) / 2 == Shl(b, n + m - 1) + x / 2;
      ShrSum(b, x / 2, n, m - 1);
    }
  }

  /** Reversing twice keeps the low bits. */
  lemma FlipFlip(x: nat, n: nat)
    ensures Flip(Flip(x, n), n) == Mask(x, n)
  {
    forall j | 0 <= j < n
      ensures BitOf(Flip(Flip(x, n), n), j) == BitOf(Mask(x, n), j)
    {
      BitOfFlip(Flip(x, n), n, j);
      BitOfFlip(x, n, n - 1 - j);
      BitOfMask(x, n, j);
    }
    BitOfFlip(Flip(x, n), n, 0);
    MaskBound(x, n);
    hide *;
    SameBits(Flip(Flip(x, n), n), Mask(x, n), n);
  }

  lemma {:induction false} BitOfMask(x: nat, n: nat, j: nat)
    ensures BitOf(Mask(x, n), j) == if j < n then BitOf(x, j) else 0
  {
    BitOfZero(j);
    if n > 0 && j > 0 {
      BitOfMask(x / 2, n - 1, j - 1);
    }
  }

  /** Reversal sees only the bits it reverses. */
  lemma {:induction false} FlipMask(x: nat, m: nat, n: nat)
    requires n <= m
    ensures Flip(Mask(x, m), n) == Flip(x, n)
  {
    if n > 0 {
      FlipMask(x / 2, m - 1, n - 1);
    }
  }
}
