/**
 Masks and prefixes: `wildcard`, `get_network_ip`, `get_broadcast_ip`,
 `prefix_to_mask`, `get_bit_count` and `mask_to_prefix`, and the mask built
 from the text of a `/N` argument. A prefix of length p names the mask whose
 top p of 32 bits are set (the prefix notation of section 3.1 of RFC 4632).
 */
module Masks {
  import opened Options
  import opened Bits

  /** `wildcard(mask)`, that is `mask ^ 0xFFFFFFFF`: the 32-bit complement of a 32-bit mask. */
  function Wildcard(mask: nat): (w: nat)
    ensures mask < Two32 ==> w == AllOnes - mask
  {
    if mask < Two32 then
      Pow2Constants();
      XorAllOnes(mask, 32);
      Xor(mask, AllOnes)
    else
      Xor(mask, AllOnes)
  }

  /** A mask and its wildcard are disjoint, cover all 32 bits, and wildcard undoes itself. */
  lemma WildcardComplements(mask: nat)
    requires mask < Two32
    ensures And(mask, Wildcard(mask)) == 0
    ensures Or(mask, Wildcard(mask)) == AllOnes
    ensures Wildcard(mask) < Two32 && Wildcard(Wildcard(mask)) == mask
  {
    Pow2Constants();
    assert LowMask(32) == AllOnes;
    AndComplement(mask, 32);
    OrComplement(mask, 32);
  }

  /** `get_network_ip(ip, mask)`: `ip & mask`, never above the address. */
  function NetworkIp(ip: nat, mask: nat): (net: nat)
    ensures net <= ip
  {
    AndBelow(ip, mask);
    And(ip, mask)
  }

  /** `get_broadcast_ip(ip, mask)`: `ip | wildcard(mask)`, never below the address. */
  function BroadcastIp(ip: nat, mask: nat): (bcast: nat)
    ensures ip <= bcast
  {
    OrAbove(ip, Wildcard(mask));
    Or(ip, Wildcard(mask))
  }

  /** For a 32-bit address and mask the broadcast address is a 32-bit address. */
  lemma BroadcastBound(ip: nat, mask: nat)
    requires ip < Two32 && mask < Two32
    ensures BroadcastIp(ip, mask) < Two32
  {
    Pow2Constants();
    WildcardComplements(mask);
    OrBound(ip, Wildcard(mask), 32);
  }

  /** `prefix_to_mask(pref)`: `((1 << pref) - 1) << (32 - pref)` */
  function PrefixToMask(p: nat): (mask: nat)
    requires p <= 32
    ensures mask < Two32
  {
    PrefixMaskValue(p);
    Shl(LowMask(p), 32 - p)
  }

  /** The mask of prefix p is 2^32 - 2^(32 - p): p ones above 32 - p zeros. */
  lemma PrefixMaskValue(p: nat)
    requires p <= 32
    ensures Shl(LowMask(p), 32 - p) == HighMask(32, 32 - p) < Two32
  {
    HighMaskAsShift(32, 32 - p);
    Pow2Constants();
  }

  /** The mask of prefix p is a 32-bit value with exactly its top p bits set. */
  lemma PrefixMaskBits(p: nat)
    requires p <= 32
    ensures PrefixToMask(p) < Two32
    ensures forall i :: 0 <= i < 32 ==> (Bit(PrefixToMask(p), i) <==> 32 - p <= i)
  {
    var m := PrefixToMask(p);
    PrefixMaskValue(p);
    assert m < Two32 by {
      Pow2Constants();
      assert m == Pow2(32) - Pow2(32 - p);
    }
    forall i | 0 <= i < 32 ensures Bit(m, i) <==> 32 - p <= i {
      HighMaskBits(32, 32 - p, i);
    }
  }

  /** The wildcard of the mask of prefix p is 2^(32 - p) - 1: the host bits. */
  lemma PrefixWildcard(p: nat)
    requires p <= 32
    ensures Wildcard(PrefixToMask(p)) == LowMask(32 - p)
  {
    PrefixMaskValue(p);
    Pow2Constants();
  }

  /**
   For a prefix mask with h = 32 - p host bits, the network address clears
   the host bits of the address: it is the address rounded down to a
   multiple of 2^h.
   */
  lemma PrefixNetwork(ip: nat, p: nat, h: nat)
    requires ip < Two32 && p <= 32 && h == 32 - p
    ensures NetworkIp(ip, PrefixToMask(p)) == ip - Low(ip, h)
    ensures NetworkIp(ip, PrefixToMask(p)) == Shl(Shr(ip, h), h)
  {
    assert ip < Pow2(32) by { Pow2Constants(); }
    PrefixMaskValue(p);
    AndHighMask(ip, 32, h);
    RoundDown(ip, h);
  }

  /**
   For a prefix mask with h = 32 - p host bits, the broadcast address sets
   the host bits: it is the network address plus 2^h - 1.
   */
  lemma PrefixBroadcast(ip: nat, p: nat, h: nat)
    requires p <= 32 && h == 32 - p
    ensures BroadcastIp(ip, PrefixToMask(p)) == ip - Low(ip, h) + Pow2(h) - 1
  {
    PrefixWildcard(p);
    OrLowMask(ip, h);
  }

  /** `get_bit_count(value)`: clears the lowest set bit until none is left, counting the passes. */
  method GetBitCount(value: nat) returns (count: nat)
    ensures count == PopCount(value)
  {
    count := 0;
    var v := value;
    while v != 0
      invariant count + PopCount(v) == PopCount(value)
      decreases v
    {
      count := count + 1;
      ClearLowestSetBit(v);
      v := And(v, v - 1);
    }
  }

  /** `mask_to_prefix(mask)`: the number of set bits, whether or not they are contiguous. */
  method MaskToPrefix(mask: nat) returns (prefix: nat)
    ensures prefix == PopCount(mask)
    ensures mask < Two32 ==> prefix <= 32
  {
    prefix := GetBitCount(mask);
    if mask < Two32 {
      Pow2Constants();
      PopCountBound(mask, 32);
    }
  }

  /** `mask_to_prefix(prefix_to_mask(p)) == p` for every prefix length. */
  lemma MaskPrefixRoundTrip(p: nat)
    requires p <= 32
    ensures PopCount(PrefixToMask(p)) == p
  {
    PrefixMaskValue(p);
    assert PopCount(HighMask(32, 32 - p)) == p by {
      PopCountHighMask(32, 32 - p);
    }
  }

  /**
   A non-contiguous dotted mask such as 255.0.255.0 still yields a prefix
   (16), although no prefix length has that mask.
   */
  lemma NonContiguousMaskPrefix()
    ensures PopCount(0xFF00_FF00) == 16
    ensures forall p :: 0 <= p <= 32 ==> PrefixToMask(p) != 0xFF00_FF00
  {
    assert PopCount(0xFF00) == 8 by {
      Pow2Constants();
      ShlMul(0xFF, 8);
      PopCountConcat(0xFF, 0, 8);
      PopCountLowMask(8);
    }
    assert PopCount(0xFF00_FF00) == 16 by {
      Pow2Constants();
      ShlMul(0xFF00, 16);
      PopCountConcat(0xFF00, 0xFF00, 16);
    }
    forall p | 0 <= p <= 32 ensures PrefixToMask(p) != 0xFF00_FF00 {
      NonPrefixMask(p);
    }
  }

  lemma NonPrefixMask(p: nat)
    requires p <= 32
    ensures PrefixToMask(p) != 0xFF00_FF00
  {
    if PrefixToMask(p) == 0xFF00_FF00 {
      PrefixMaskValue(p);
      HighMaskBits(32, 32 - p, 8);
      HighMaskBits(32, 32 - p, 16);
      assert Bit(0xFF00_FF00, 8) by {
        Pow2Constants();
        ShlMul(0xFF_00FF, 8);
        ShrLowUnique(0xFF00_FF00, 8, 0xFF_00FF, 0);
      }
      assert !Bit(0xFF00_FF00, 16) by {
        Pow2Constants();
        ShlMul(0xFF00, 16);
        ShrLowUnique(0xFF00_FF00, 16, 0xFF00, 0xFF00);
      }
      assert false;
    }
  }

  // ---------------------------------------------------------------------
  // The `/N` mask argument: int('1' * N + '0' * (32 - N), 2)

  function Ones(n: nat): (s: string)
  {
    seq(n, _ => '1')
  }

  function Zeros(n: nat): (s: string)
  {
    seq(n, _ => '0')
  }

  predicate IsBinary(s: string)
  {
    forall i :: 0 <= i < |s| ==> s[i] == '0' || s[i] == '1'
  }

  /** Python's `int(s, 2)` for a string of binary digits. */
  function BinaryValue(s: string): nat
    requires IsBinary(s)
  {
    if s == [] then 0 else 2 * BinaryValue(s[..|s| - 1]) + (if s[|s| - 1] == '1' then 1 else 0)
  }

  lemma {:induction false} BinaryValueOfOnes(n: nat)
    ensures BinaryValue(Ones(n)) == LowMask(n)
  {
    if n > 0 {
      assert Ones(n)[..n - 1] == Ones(n - 1);
      BinaryValueOfOnes(n - 1);
    }
  }

  /** Appending k zero digits shifts the value left by k. */
  lemma {:induction false} BinaryValueShift(s: string, k: nat)
    requires IsBinary(s)
    ensures IsBinary(s + Zeros(k))
    ensures BinaryValue(s + Zeros(k)) == Shl(BinaryValue(s), k)
  {
    if k > 0 {
      var t := s + Zeros(k);
      assert t[..|t| - 1] == s + Zeros(k - 1);
      BinaryValueShift(s, k - 1);
    } else {
      assert s + Zeros(k) == s;
    }
  }

  /**
   The mask the `/N` branch builds: `None` when N is outside 0..32 (the
   script exits), otherwise the value of N ones followed by 32 - N zeros.
   */
  function PrefixArgMask(n: int): (r: Option<nat>)
    ensures r.Some? <==> 0 <= n <= 32
    ensures r.Some? ==> r.value == PrefixToMask(n)
  {
    if !(0 <= n <= 32) then None
    else
      BinaryValueOfOnes(n);
      BinaryValueShift(Ones(n), 32 - n);
      Some(BinaryValue(Ones(n) + Zeros(32 - n)))
  }

}
