/**
 Python's integer bit operators on non-negative integers.

 The scripts keep addresses and masks in Python `int`s, which are unbounded.
 Here every operator is defined on `nat` one bit at a time, least
 significant bit first: `&`, `|` and `^` combine the low bits and recurse
 on the halves, `>>` halves k times and `<<` doubles k times. The lemmas
 below give the arithmetic meaning of the bit patterns the scripts use.
 */
module Bits {

  /** 2^32, one more than the largest 32-bit value. */
  const Two32: nat := 0x1_0000_0000
  /** 0xFFFFFFFF, the 32-bit all-ones pattern. */
  const AllOnes: nat := 0xFFFF_FFFF

  function Pow2(k: nat): (r: nat)
    ensures r >= 1
  {
    if k == 0 then 1 else 2 * Pow2(k - 1)
  }

  /** Python's `a >> k`. */
  function Shr(a: nat, k: nat): nat
  {
    if k == 0 then a else Shr(a / 2, k - 1)
  }

  /** Python's `a << k`. */
  function Shl(a: nat, k: nat): nat
  {
    if k == 0 then a else 2 * Shl(a, k - 1)
  }

  /** The value of the low `k` bits of `a`, that is `a % (1 << k)`. */
  function Low(a: nat, k: nat): nat
  {
    if k == 0 then 0 else 2 * Low(a / 2, k - 1) + a % 2
  }

  /** The low `k` bits set: Python's `(1 << k) - 1`. */
  function LowMask(k: nat): nat
  {
    Pow2(k) - 1
  }

  /** The bits numbered k through n - 1: 2^n - 2^k. */
  function HighMask(n: nat, k: nat): nat
    requires k <= n
  {
    Pow2Mono(k, n);
    Pow2(n) - Pow2(k)
  }

  /** Python's `a & b`. */
  function And(a: nat, b: nat): nat
    decreases a
  {
    if a == 0 || b == 0 then 0
    else 2 * And(a / 2, b / 2) + (if a % 2 == 1 && b % 2 == 1 then 1 else 0)
  }

  /** Python's `a | b`. */
  function Or(a: nat, b: nat): nat
    decreases a + b
  {
    if a == 0 then b
    else if b == 0 then a
    else 2 * Or(a / 2, b / 2) + (if a % 2 == 1 || b % 2 == 1 then 1 else 0)
  }

  /** Python's `a ^ b`. */
  function Xor(a: nat, b: nat): nat
    decreases a + b
  {
    if a == 0 then b
    else if b == 0 then a
    else 2 * Xor(a / 2, b / 2) + (if a % 2 != b % 2 then 1 else 0)
  }

  /** Bit `i` of `a` is set. */
  predicate Bit(a: nat, i: nat)
  {
    Shr(a, i) % 2 == 1
  }

  /** The number of set bits of `a` (Python 3.10's `int.bit_count()`). */
  function PopCount(a: nat): nat
  {
    if a == 0 then 0 else a % 2 + PopCount(a / 2)
  }

  /** The number of binary digits of `a` (Python's `int.bit_length()`). */
  function BitLen(a: nat): nat
  {
    if a == 0 then 0 else 1 + BitLen(a / 2)
  }

  // ---------------------------------------------------------------------
  // Powers of two and shifts

  lemma {:induction false} Pow2Mono(a: nat, b: nat)
    requires a <= b
    ensures Pow2(a) <= Pow2(b)
  {
    if a < b {
      Pow2Mono(a, b - 1);
    }
  }

  lemma Pow2Constants()
    ensures Pow2(8) == 256 && Pow2(16) == 65536 && Pow2(24) == 16777216
    ensures Pow2(32) == Two32
  {
  }

  /** `a << k` is `a * 2^k`. */
  lemma {:induction false} ShlMul(a: nat, k: nat)
    ensures Shl(a, k) == a * Pow2(k)
  {
    if k > 0 {
      ShlMul(a, k - 1);
      assert a * Pow2(k) == 2 * (a * Pow2(k - 1));
    }
  }

  /** `(x >> a) >> b == x >> (a + b)` */
  lemma {:induction false} ShrShr(x: nat, a: nat, b: nat)
    ensures Shr(Shr(x, a), b) == Shr(x, a + b)
    decreases a
  {
    if a > 0 {
      ShrShr(x / 2, a - 1, b);
    }
  }

  /** `(x << a) << b == x << (a + b)` */
  lemma {:induction false} ShlShl(x: nat, a: nat, b: nat)
    ensures Shl(Shl(x, a), b) == Shl(x, a + b)
    decreases b
  {
    if b > 0 {
      ShlShl(x, a, b - 1);
    }
  }

  /** `x` is its high part shifted back plus its low `k` bits, which are below 2^k. */
  lemma {:induction false} ShrLow(x: nat, k: nat)
    ensures x == Shl(Shr(x, k), k) + Low(x, k)
    ensures Low(x, k) < Pow2(k)
    decreases k
  {
    if k > 0 {
      ShrLow(x / 2, k - 1);
    }
  }

  /** The high part and the low `k` bits are the only such decomposition. */
  lemma {:induction false} ShrLowUnique(x: nat, k: nat, q: nat, r: nat)
    requires r < Pow2(k) && x == Shl(q, k) + r
    ensures Shr(x, k) == q && Low(x, k) == r
    decreases k
  {
    if k > 0 {
      assert x / 2 == Shl(q, k - 1) + r / 2 && x % 2 == r % 2;
      ShrLowUnique(x / 2, k - 1, q, r / 2);
    }
  }

  lemma {:induction false} ShlZero(k: nat)
    ensures Shl(0, k) == 0
  {
    if k > 0 {
      ShlZero(k - 1);
    }
  }

  /** A value below 2^k is its own low `k` bits, and `>> k` clears it. */
  lemma LowOfSmall(a: nat, k: nat)
    requires a < Pow2(k)
    ensures Low(a, k) == a && Shr(a, k) == 0
  {
    ShlZero(k);
    ShrLowUnique(a, k, 0, a);
  }

  /** The low a + b bits are the low `a` bits plus the next `b` bits shifted up. */
  lemma {:induction false} LowSplit(x: nat, a: nat, b: nat)
    ensures Low(x, a + b) == Shl(Low(Shr(x, a), b), a) + Low(x, a)
    decreases a
  {
    if a > 0 {
      LowSplit(x / 2, a - 1, b);
    }
  }

  /** Clearing the low `k` bits gives `(x >> k) << k`. */
  lemma RoundDown(x: nat, k: nat)
    ensures x - Low(x, k) == Shl(Shr(x, k), k)
  {
    ShrLow(x, k);
  }

  /** `(a + b) << k == (a << k) + (b << k)` */
  lemma {:induction false} ShlAdd(a: nat, b: nat, k: nat)
    ensures Shl(a + b, k) == Shl(a, k) + Shl(b, k)
  {
    if k > 0 {
      ShlAdd(a, b, k - 1);
    }
  }

  /** `1 << k == 2^k`, and shifting 2^a left by b gives 2^(a + b). */
  lemma {:induction false} ShlPow2(a: nat, b: nat)
    ensures Shl(Pow2(a), b) == Pow2(a + b)
  {
    if b > 0 {
      ShlPow2(a, b - 1);
      assert Pow2(a + b) == 2 * Pow2(a + b - 1);
    }
  }

  /** One more block of 2^k: `(a + 1) << k == (a << k) + 2^k`. */
  lemma ShlSucc(a: nat, k: nat)
    ensures Shl(a + 1, k) == Shl(a, k) + Pow2(k)
  {
    ShlAdd(a, 1, k);
    ShlPow2(0, k);
  }

  /** `<<` is monotonic in the shifted value. */
  lemma {:induction false} ShlMono(a: nat, b: nat, k: nat)
    requires a <= b
    ensures Shl(a, k) <= Shl(b, k)
  {
    if k > 0 {
      ShlMono(a, b, k - 1);
    }
  }

  /** A value shifted left by H has its low h bits clear, for every h <= H. */
  lemma {:induction false} LowOfShl(q: nat, H: nat, h: nat)
    requires h <= H
    ensures Low(Shl(q, H), h) == 0
    decreases h
  {
    if h > 0 {
      assert Shl(q, H) == 2 * Shl(q, H - 1);
      LowOfShl(q, H - 1, h - 1);
    }
  }

  /** `a >> s` is at most `a`. */
  lemma {:induction false} ShrBelow(a: nat, s: nat)
    ensures Shr(a, s) <= a
    decreases s
  {
    if s > 0 {
      ShrBelow(a / 2, s - 1);
    }
  }

  /** A value below 2^(a + b) shifted right by a is below 2^b. */
  lemma {:induction false} ShrBound(x: nat, a: nat, b: nat)
    requires x < Pow2(a + b)
    ensures Shr(x, a) < Pow2(b)
    decreases a
  {
    if a > 0 {
      assert Pow2(a + b) == 2 * Pow2(a - 1 + b);
      ShrBound(x / 2, a - 1, b);
    }
  }

  lemma LowMaskHalf(k: nat)
    requires k > 0
    ensures LowMask(k) % 2 == 1 && LowMask(k) / 2 == LowMask(k - 1)
  {
    assert LowMask(k) == 2 * LowMask(k - 1) + 1;
  }

  /** The n-bit complement of `a`, halved, is the (n - 1)-bit complement of `a / 2`. */
  lemma ComplementHalf(a: nat, n: nat)
    requires n > 0 && a < Pow2(n)
    ensures a / 2 < Pow2(n - 1)
    ensures (LowMask(n) - a) / 2 == LowMask(n - 1) - a / 2
    ensures (LowMask(n) - a) % 2 == 1 - a % 2
  {
    assert Pow2(n) == 2 * Pow2(n - 1);
    assert LowMask(n) - a == 2 * (LowMask(n - 1) - a / 2) + (1 - a % 2);
  }

  lemma HighMaskHalf(n: nat, k: nat)
    requires 0 < k <= n
    ensures HighMask(n, k) == 2 * HighMask(n - 1, k - 1)
    ensures HighMask(n, k) % 2 == 0 && HighMask(n, k) / 2 == HighMask(n - 1, k - 1)
  {
  }

  /** `((1 << (n - k)) - 1) << k` is the high mask of bits k .. n - 1. */
  lemma {:induction false} HighMaskAsShift(n: nat, k: nat)
    requires k <= n
    ensures Shl(LowMask(n - k), k) == HighMask(n, k)
    decreases k
  {
    if k > 0 {
      HighMaskAsShift(n - 1, k - 1);
      HighMaskHalf(n, k);
    }
  }

  // ---------------------------------------------------------------------
  // Basic facts about the bit operators

  lemma {:induction false} AndSelf(a: nat)
    ensures And(a, a) == a
  {
    if a > 0 {
      AndSelf(a / 2);
    }
  }

  lemma {:induction false} AndBelow(a: nat, b: nat)
    ensures And(a, b) <= a && And(a, b) <= b
  {
    if a > 0 && b > 0 {
      AndBelow(a / 2, b / 2);
    }
  }

  lemma {:induction false} OrAbove(a: nat, b: nat)
    ensures a <= Or(a, b) && b <= Or(a, b)
    decreases a + b
  {
    if a > 0 && b > 0 {
      OrAbove(a / 2, b / 2);
    }
  }

  /** The `|` of two values below 2^n is below 2^n. */
  lemma {:induction false} OrBound(a: nat, b: nat, n: nat)
    requires a < Pow2(n) && b < Pow2(n)
    ensures Or(a, b) < Pow2(n)
    decreases n
  {
    if a > 0 && b > 0 {
      OrBound(a / 2, b / 2, n - 1);
    }
  }

  lemma OrHalf(a: nat, b: nat)
    ensures Or(a, b) / 2 == Or(a / 2, b / 2)
    ensures Or(a, b) % 2 == 1 <==> a % 2 == 1 || b % 2 == 1
  {
  }

  lemma OrDouble(a: nat, b: nat)
    ensures Or(2 * a, 2 * b) == 2 * Or(a, b)
  {
  }

  /** `(a | b) >> j == (a >> j) | (b >> j)`. */
  lemma {:induction false} OrShr(a: nat, b: nat, j: nat)
    ensures Shr(Or(a, b), j) == Or(Shr(a, j), Shr(b, j))
    decreases j
  {
    if j > 0 {
      OrHalf(a, b);
      OrShr(a / 2, b / 2, j - 1);
    }
  }

  /** `(a << k) | (b << k) == (a | b) << k`. */
  lemma {:induction false} OrShl(a: nat, b: nat, k: nat)
    ensures Or(Shl(a, k), Shl(b, k)) == Shl(Or(a, b), k)
    decreases k
  {
    if k > 0 {
      OrShl(a, b, k - 1);
      OrDouble(Shl(a, k - 1), Shl(b, k - 1));
    }
  }

  /** `|` of a shifted value and a value below the shift is their sum. */
  lemma {:induction false} OrShlDisjoint(a: nat, b: nat, k: nat)
    requires b < Pow2(k)
    ensures Or(Shl(a, k), b) == Shl(a, k) + b
    decreases k
  {
    if k > 0 && Shl(a, k) > 0 && b > 0 {
      OrShlDisjoint(a, b / 2, k - 1);
    }
  }

  // ---------------------------------------------------------------------
  // Low masks (2^k - 1) and high masks (2^n - 2^k)

  /** `a & ((1 << k) - 1)` keeps the low `k` bits. */
  lemma {:induction false} AndLowMask(a: nat, k: nat)
    ensures And(a, LowMask(k)) == Low(a, k)
    decreases k
  {
    if k > 0 {
      LowMaskHalf(k);
      assert And(a, LowMask(k)) == 2 * And(a / 2, LowMask(k - 1)) + a % 2;
      AndLowMask(a / 2, k - 1);
    }
  }

  /** `a | ((1 << k) - 1)` sets the low `k` bits. */
  lemma {:induction false} OrLowMask(a: nat, k: nat)
    ensures Or(a, LowMask(k)) == a - Low(a, k) + LowMask(k)
    decreases k
  {
    if k > 0 {
      LowMaskHalf(k);
      assert Or(a, LowMask(k)) == 2 * Or(a / 2, LowMask(k - 1)) + 1;
      OrLowMask(a / 2, k - 1);
    }
  }

  /** For `a` below 2^n, `a & HighMask(n, k)` clears the low `k` bits. */
  lemma {:induction false} AndHighMask(a: nat, n: nat, k: nat)
    requires k <= n && a < Pow2(n)
    ensures And(a, HighMask(n, k)) == a - Low(a, k)
    decreases k
  {
    if k == 0 {
      assert HighMask(n, k) == LowMask(n);
      AndLowMask(a, n);
      LowOfSmall(a, n);
    } else if n == k {
      LowOfSmall(a, n);
    } else {
      HighMaskHalf(n, k);
      assert And(a, HighMask(n, k)) == 2 * And(a / 2, HighMask(n - 1, k - 1));
      AndHighMask(a / 2, n - 1, k - 1);
    }
  }

  /** For `a` below 2^n, `a ^ (2^n - 1)` is the n-bit complement. */
  lemma {:induction false} XorAllOnes(a: nat, n: nat)
    requires a < Pow2(n)
    ensures Xor(a, LowMask(n)) == LowMask(n) - a
    decreases n
  {
    if n > 0 && a > 0 {
      ComplementHalf(a, n);
      LowMaskHalf(n);
      XorAllOnes(a / 2, n - 1);
      assert Xor(a, LowMask(n)) == 2 * Xor(a / 2, LowMask(n - 1)) + (1 - a % 2);
    }
  }

  /** A value and its n-bit complement share no bit. */
  lemma {:induction false} AndComplement(a: nat, n: nat)
    requires a < Pow2(n)
    ensures And(a, LowMask(n) - a) == 0
    decreases n
  {
    if n > 0 && a > 0 && LowMask(n) - a > 0 {
      ComplementHalf(a, n);
      AndComplement(a / 2, n - 1);
      assert And(a, LowMask(n) - a) == 2 * And(a / 2, LowMask(n - 1) - a / 2);
    }
  }

  /** A value and its n-bit complement together set all n bits. */
  lemma {:induction false} OrComplement(a: nat, n: nat)
    requires a < Pow2(n)
    ensures Or(a, LowMask(n) - a) == LowMask(n)
    decreases n
  {
    if n > 0 && a > 0 && LowMask(n) - a > 0 {
      ComplementHalf(a, n);
      LowMaskHalf(n);
      OrComplement(a / 2, n - 1);
      assert Or(a, LowMask(n) - a) == 2 * LowMask(n - 1) + 1;
    }
  }

  // ---------------------------------------------------------------------
  // Counting and locating bits

  /** `v & (v - 1)` clears exactly the lowest set bit of a positive `v`. */
  lemma {:induction false} ClearLowestSetBit(v: nat)
    requires v > 0
    ensures And(v, v - 1) < v
    ensures PopCount(And(v, v - 1)) == PopCount(v) - 1
    decreases v
  {
    if v % 2 == 1 {
      if v > 1 {
        AndSelf(v / 2);
        assert And(v, v - 1) == 2 * (v / 2);
        PopCountDouble(v / 2);
      }
    } else {
      ClearLowestSetBit(v / 2);
      assert And(v, v - 1) == 2 * And(v / 2, v / 2 - 1);
      PopCountDouble(And(v / 2, v / 2 - 1));
    }
  }

  lemma PopCountDouble(a: nat)
    ensures PopCount(2 * a) == PopCount(a)
  {
  }

  /** The set bits of `a << k` and of a `b` below 2^k add up. */
  lemma {:induction false} PopCountConcat(a: nat, b: nat, k: nat)
    requires b < Pow2(k)
    ensures PopCount(Shl(a, k) + b) == PopCount(a) + PopCount(b)
    decreases k
  {
    if k > 0 {
      var x := Shl(a, k) + b;
      assert x / 2 == Shl(a, k - 1) + b / 2 && x % 2 == b % 2;
      PopCountConcat(a, b / 2, k - 1);
    }
  }

  /** 2^n - 1 has n bits set. */
  lemma {:induction false} PopCountLowMask(n: nat)
    ensures PopCount(LowMask(n)) == n
  {
    if n > 0 {
      LowMaskHalf(n);
      PopCountLowMask(n - 1);
    }
  }

  /** HighMask(n, k) has n - k bits set. */
  lemma {:induction false} PopCountHighMask(n: nat, k: nat)
    requires k <= n
    ensures PopCount(HighMask(n, k)) == n - k
    decreases k
  {
    if k == 0 {
      assert HighMask(n, 0) == LowMask(n);
      PopCountLowMask(n);
    } else {
      HighMaskHalf(n, k);
      PopCountHighMask(n - 1, k - 1);
      PopCountDouble(HighMask(n - 1, k - 1));
    }
  }

  /** The bits of HighMask(n, k) below bit n are exactly those numbered k and up. */
  lemma {:induction false} HighMaskBits(n: nat, k: nat, i: nat)
    requires k <= n && i < n
    ensures Bit(HighMask(n, k), i) <==> k <= i
    decreases i
  {
    if i == 0 {
      assert Pow2(n) == 2 * Pow2(n - 1);
    } else {
      var m := HighMask(n, k);
      assert Bit(m, i) == Bit(m / 2, i - 1);
      if k > 0 {
        assert m / 2 == HighMask(n - 1, k - 1) by {
          HighMaskHalf(n, k);
        }
        HighMaskBits(n - 1, k - 1, i - 1);
      } else {
        assert m / 2 == HighMask(n - 1, 0);
        HighMaskBits(n - 1, 0, i - 1);
      }
    }
  }

  /** Bits 0 .. k - 1 of 2^k - 1 are set. */
  lemma LowMaskBits(k: nat, i: nat)
    requires i < k
    ensures Bit(LowMask(k), i)
  {
    assert HighMask(k, 0) == LowMask(k);
    HighMaskBits(k, 0, i);
  }

  /** A value below 2^n has at most n bits set. */
  lemma {:induction false} PopCountBound(a: nat, n: nat)
    requires a < Pow2(n)
    ensures PopCount(a) <= n
    decreases n
  {
    if a > 0 {
      PopCountBound(a / 2, n - 1);
    }
  }

  /** BitLen(m) is the least k with m < 2^k. */
  lemma {:induction false} BitLenBounds(m: nat)
    ensures m < Pow2(BitLen(m))
    ensures m > 0 ==> Pow2(BitLen(m) - 1) <= m
  {
    if m > 0 {
      BitLenBounds(m / 2);
    }
  }

  lemma {:induction false} BitLenAtMost(m: nat, n: nat)
    requires m < Pow2(n)
    ensures BitLen(m) <= n
    decreases n
  {
    if m > 0 {
      BitLenAtMost(m / 2, n - 1);
    }
  }

  /** The highest set bit of a positive `m` is bit BitLen(m) - 1. */
  lemma {:induction false} TopBit(m: nat)
    requires m > 0
    ensures Bit(m, BitLen(m) - 1)
  {
    if m > 1 {
      TopBit(m / 2);
    }
  }

  /** Bit i of `a | b` is set iff it is set in `a` or in `b`. */
  lemma BitOr(a: nat, b: nat, i: nat)
    ensures Bit(Or(a, b), i) <==> Bit(a, i) || Bit(b, i)
  {
    OrShr(a, b, i);
    OrHalf(Shr(a, i), Shr(b, i));
  }

  /** Bit i of `a >> s` is bit s + i of `a`. */
  lemma BitShr(a: nat, s: nat, i: nat)
    ensures Bit(Shr(a, s), i) <==> Bit(a, s + i)
  {
    ShrShr(a, s, i);
  }

  /** A value below 2^L whose bits 0 .. L - 1 are all set is 2^L - 1. */
  lemma {:induction false} AllBitsSet(x: nat, L: nat)
    requires x < Pow2(L)
    requires forall i :: 0 <= i < L ==> Bit(x, i)
    ensures x == LowMask(L)
    decreases L
  {
    if L > 0 {
      assert Bit(x, 0);
      forall i | 0 <= i < L - 1
        ensures Bit(x / 2, i)
      {
        assert Bit(x, i + 1);
      }
      AllBitsSet(x / 2, L - 1);
    }
  }

}
