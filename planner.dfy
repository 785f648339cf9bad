/**
 `pref_by_subnets(base_prefix, n_subnets)`: the prefix of the subnets when a
 network of prefix `base_prefix` is split into `n_subnets` equal parts. It
 smears the highest set bit of n - 1 into every lower position, counts the
 ones, and adds the count to the base prefix; a result above 32 is `None`.
 */
module Planner {
  import opened Options
  import opened Bits
  import opened Masks

  function Min(a: nat, b: nat): nat
  {
    if a <= b then a else b
  }

  /**
   x has no bit at L or above, and of its L low bits the top t are set (all
   of them when t >= L).
   */
  predicate TopSet(x: nat, L: nat, t: nat)
  {
    x < Pow2(L) && Shr(x, L - Min(t, L)) == LowMask(Min(t, L))
  }

  /** TopSet holds when the top t of the L low bits are set, ... */
  lemma TopSetOfBits(x: nat, L: nat, t: nat)
    requires t <= L && x < Pow2(L)
    requires forall i :: L - t <= i < L ==> Bit(x, i)
    ensures TopSet(x, L, t)
  {
    var y := Shr(x, L - t);
    forall j | 0 <= j < t
      ensures Bit(y, j)
    {
      BitShr(x, L - t, j);
      assert Bit(x, L - t + j);
    }
    ShrBound(x, L - t, t);
    AllBitsSet(y, t);
  }

  /** ... and those bits are set when TopSet holds. */
  lemma BitOfTopSet(x: nat, L: nat, t: nat, i: nat)
    requires t <= L && TopSet(x, L, t)
    requires L - t <= i < L
    ensures Bit(x, i)
  {
    var y := Shr(x, L - t);
    LowMaskBits(t, i - (L - t));
    BitShr(x, L - t, i - (L - t));
  }

  /** Before the smear: the highest bit of m is set. */
  lemma SmearStart(m: nat)
    requires m < Two32
    ensures BitLen(m) <= 32
    ensures TopSet(m, BitLen(m), 1)
  {
    Pow2Constants();
    BitLenAtMost(m, 32);
    BitLenBounds(m);
    if m > 0 {
      TopBit(m);
    }
    TopSetOfBits(m, BitLen(m), Min(1, BitLen(m)));
  }

  /**
   One smear step `x |= x >> s`: when the top t bits are set and s <= t, the
   top t + s bits are set afterwards (never more than L).
   */
  lemma SmearStep(x: nat, L: nat, t: nat, s: nat)
    requires TopSet(x, L, t)
    requires s <= t
    ensures TopSet(Or(x, Shr(x, s)), L, t + s)
  {
    var y := Or(x, Shr(x, s));
    var t' := Min(t + s, L);
    ShrBelow(x, s);
    OrBound(x, Shr(x, s), L);
    forall i | L - t' <= i < L
      ensures Bit(y, i)
    {
      BitOr(x, Shr(x, s), i);
      if i < L - Min(t, L) {
        BitShr(x, s, i);
        BitOfTopSet(x, L, Min(t, L), s + i);
      } else {
        BitOfTopSet(x, L, Min(t, L), i);
      }
    }
    TopSetOfBits(y, L, t');
  }

  /** After the smear: all L bits are set. */
  lemma SmearDone(x: nat, L: nat)
    requires L <= 32 && TopSet(x, L, 32)
    ensures x == LowMask(L)
  {
    assert Min(32, L) == L;
    assert Shr(x, 0) == x;
  }

  /** BitLen(n - 1) is the least k with 2^k >= n. */
  lemma LeastCover(n: nat)
    requires n >= 1
    ensures Pow2(BitLen(n - 1)) >= n
    ensures forall j :: 0 <= j < BitLen(n - 1) ==> Pow2(j) < n
  {
    var L := BitLen(n - 1);
    BitLenBounds(n - 1);
    forall j | 0 <= j < L
      ensures Pow2(j) < n
    {
      Pow2Mono(j, L - 1);
    }
  }

  /**
   The prefix `pref_by_subnets` plans: the base prefix plus the least k with
   2^k >= n, or `None` when that exceeds 32.
   */
  function PlannedPrefix(bp: nat, n: nat): (r: Option<nat>)
    requires n >= 1
    ensures r.Some? ==> bp <= r.value <= 32
    ensures n == 1 ==> r == (if bp <= 32 then Some(bp) else None)
  {
    var k := BitLen(n - 1);
    if bp + k <= 32 then Some(bp + k) else None
  }

  /** The planned prefix leaves room for n subnets: 2^(prefix - bp) >= n. */
  lemma PlannedPrefixCovers(bp: nat, n: nat, p: nat)
    requires n >= 1 && PlannedPrefix(bp, n) == Some(p)
    ensures n <= Pow2(p - bp)
  {
    BitLenBounds(n - 1);
  }

  /**
   No shorter prefix would do: every smaller power of two is below n, and
   `None` means no prefix up to 32 leaves room.
   */
  lemma PlannedPrefixLeast(bp: nat, n: nat)
    requires n >= 1
    ensures PlannedPrefix(bp, n).Some? ==>
              forall j :: 0 <= j < PlannedPrefix(bp, n).value - bp ==> Pow2(j) < n
    ensures PlannedPrefix(bp, n).None? ==> forall j :: 0 <= j && bp + j <= 32 ==> Pow2(j) < n
  {
    LeastCover(n);
  }

  /**
   The five smear steps, each `x |= x >> s` for s = 1, 2, 4, 8, 16, set every
   bit of a 32-bit value below its highest set bit.
   */
  lemma SmearSteps(v: nat, m1: nat, m2: nat, m3: nat, m4: nat, m5: nat)
    requires v < Two32
    requires m1 == Or(v, Shr(v, 1)) && m2 == Or(m1, Shr(m1, 2))
    requires m3 == Or(m2, Shr(m2, 4)) && m4 == Or(m3, Shr(m3, 8))
    requires m5 == Or(m4, Shr(m4, 16))
    ensures m5 == LowMask(BitLen(v))
  {
    var L := BitLen(v);
    assert L <= 32 && TopSet(m2, L, 4) by {
      SmearStart(v);
      SmearStep(v, L, 1, 1);
      SmearStep(m1, L, 2, 2);
    }
    assert TopSet(m4, L, 16) by {
      SmearStep(m2, L, 4, 4);
      SmearStep(m3, L, 8, 8);
    }
    SmearStep(m4, L, 16, 16);
    SmearDone(m5, L);
  }

  /** The smear of `pref_by_subnets`: `n_subnets |= n_subnets >> s` for s = 1, 2, 4, 8, 16. */
  method Smear(v: nat) returns (m: nat)
    requires v < Two32
    ensures m == LowMask(BitLen(v))
    ensures PopCount(m) == BitLen(v)
  {
    m := v;
    m := Or(m, Shr(m, 1));
    ghost var m1 := m;
    m := Or(m, Shr(m, 2));
    ghost var m2 := m;
    m := Or(m, Shr(m, 4));
    ghost var m3 := m;
    m := Or(m, Shr(m, 8));
    ghost var m4 := m;
    m := Or(m, Shr(m, 16));
    SmearSteps(v, m1, m2, m3, m4, m);
    PopCountLowMask(BitLen(v));
  }

  /** `pref_by_subnets`: smear n - 1, count its bits with `get_bit_count`, add the base prefix. */
  method PrefBySubnets(bp: nat, n: nat) returns (r: Option<nat>)
    requires 1 <= n <= Two32
    ensures r == PlannedPrefix(bp, n)
  {
    var v := n - 1;
    var m := Smear(v);
    var count := GetBitCount(m);
    var newPrefix := bp + count;
    r := if newPrefix <= 32 then Some(newPrefix) else None;
  }

}
