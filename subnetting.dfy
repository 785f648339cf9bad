/**
 The subnet enumeration of `subnetting.py`: from a base network and a
 number of subnets n it plans one longer prefix for all subnets, then walks
 the subnet addresses from the base network address on, each pass stepping
 `((prev_subnet_ip >> host_bits) + 1) << host_bits`, and gives each subnet
 its broadcast address, its gateway and its client pool.
 */
module Subnetting {
  import opened Options
  import opened Bits
  import opened Masks
  import opened Planner
  import opened Ranges

  /** One planned subnet: its network address and its broadcast address. */
  datatype Subnet = Subnet(ip: nat, broadcast: nat)

  /**
   `subnet_ip` of pass i of the loop, with h host bits: the base network
   address on pass 0, then `((prev_subnet_ip >> h) + 1) << h`, whose h host
   bits are clear.
   */
  function SubnetIp(net: nat, h: nat, i: nat): (x: nat)
    ensures i >= 1 ==> Low(x, h) == 0
  {
    if i == 0 then net
    else
      LowOfShl(Shr(SubnetIp(net, h, i - 1), h) + 1, h, h);
      Shl(Shr(SubnetIp(net, h, i - 1), h) + 1, h)
  }

  /** The subnet of pass i: `subnet_ip` and `get_broadcast_ip(subnet_ip, subnet_mask)`. */
  function SubnetAt(net: nat, h: nat, mask: nat, i: nat): Subnet
  {
    var x := SubnetIp(net, h, i);
    Subnet(x, BroadcastIp(x, mask))
  }

  /** The subnets of the first n passes, in loop order. */
  function Subnets(net: nat, h: nat, mask: nat, n: nat): (subs: seq<Subnet>)
    ensures |subs| == n
  {
    if n == 0 then [] else Subnets(net, h, mask, n - 1) + [SubnetAt(net, h, mask, n - 1)]
  }

  /** Entry i of the first n subnets is the subnet of pass i. */
  lemma {:induction false} SubnetsAt(net: nat, h: nat, mask: nat, n: nat, i: nat)
    requires i < n
    ensures Subnets(net, h, mask, n)[i] == SubnetAt(net, h, mask, i)
  {
    if i < n - 1 {
      SubnetsAt(net, h, mask, n - 1, i);
    }
  }

  /**
   The subnets `main` enumerates for `ip`, `netmask` and n: `None` when
   `pref_by_subnets` finds no prefix (the script then fails in
   `prefix_to_mask(None)`), otherwise the n subnets in loop order.
   */
  function PlannedSubnets(ip: nat, netmask: nat, n: nat): (r: Option<seq<Subnet>>)
    requires 1 <= n <= Two32
    ensures r.None? <==> PlannedPrefix(PopCount(netmask), n).None?
    ensures r.Some? ==> |r.value| == n && r.value[0].ip == NetworkIp(ip, netmask)
  {
    match PlannedPrefix(PopCount(netmask), n)
    case None => None
    case Some(p) =>
      var h := 32 - p;
      SubnetsAt(NetworkIp(ip, netmask), h, PrefixToMask(p), n, 0);
      Some(Subnets(NetworkIp(ip, netmask), h, PrefixToMask(p), n))
  }

  /**
   The planning part of `main` (the dhcpd text it writes for each subnet is
   left out): plan the prefix, build its mask, then walk the subnets.
   */
  method Enumerate(ip: nat, netmask: nat, n: nat) returns (r: Option<seq<Subnet>>)
    requires 1 <= n <= Two32
    ensures r == PlannedSubnets(ip, netmask, n)
  {
    var net := NetworkIp(ip, netmask);
    var netPrefix := MaskToPrefix(netmask);
    var subnetsPrefix := PrefBySubnets(netPrefix, n);
    if subnetsPrefix.None? {
      return None;
    }
    var p := subnetsPrefix.value;
    var mask := PrefixToMask(p);
    var subnets := Walk(net, 32 - p, mask, n);
    r := Some(subnets);
    PlannedSubnetsOf(ip, netmask, n, p, 32 - p);
  }

  /**
   The loop of `main`: one subnet per pass, carrying `prev_subnet_ip` from
   pass to pass and stepping it with h host bits.
   */
  method Walk(net: nat, h: nat, mask: nat, n: nat) returns (subnets: seq<Subnet>)
    ensures subnets == Subnets(net, h, mask, n)
  {
    subnets := [];
    var prev := net;
    var id := 0;
    while id < n
      invariant id <= n && subnets == Subnets(net, h, mask, id)
      invariant id > 0 ==> prev == SubnetIp(net, h, id - 1)
    {
      var subnetIp;
      if id == 0 {
        subnetIp := net;
      } else {
        subnetIp := Shl(Shr(prev, h) + 1, h);
        assert subnetIp == SubnetIp(net, h, id) by {
          SubnetIpNext(net, h, id);
        }
      }
      prev := subnetIp;
      var bcast := BroadcastIp(subnetIp, mask);
      assert Subnet(subnetIp, bcast) == SubnetAt(net, h, mask, id);
      subnets := subnets + [Subnet(subnetIp, bcast)];
      id := id + 1;
    }
  }

  /** Pass i follows from pass i - 1 by one step of the loop. */
  lemma SubnetIpNext(net: nat, h: nat, i: nat)
    requires i >= 1
    ensures SubnetIp(net, h, i) == Shl(Shr(SubnetIp(net, h, i - 1), h) + 1, h)
  {
  }

  /** Given the planned prefix p, the plan is the n subnets with 32 - p host bits. */
  lemma PlannedSubnetsOf(ip: nat, netmask: nat, n: nat, p: nat, h: nat)
    requires 1 <= n <= Two32
    requires PlannedPrefix(PopCount(netmask), n) == Some(p) && h == 32 - p
    ensures PlannedSubnets(ip, netmask, n) == Some(Subnets(NetworkIp(ip, netmask), h, PrefixToMask(p), n))
  {
  }

  // ---------------------------------------------------------------------
  // Layout of the subnets

  /**
   After the first pass every subnet address is the base network's
   network part, advanced by the pass number, shifted back: its host bits
   are clear whatever the base address was.
   */
  lemma {:induction false} SubnetIpStep(net: nat, h: nat, i: nat)
    requires i >= 1
    ensures SubnetIp(net, h, i) == Shl(Shr(net, h) + i, h)
    ensures Low(SubnetIp(net, h, i), h) == 0
  {
    var q := Shr(net, h) + i;
    if i > 1 {
      SubnetIpStep(net, h, i - 1);
      assert Shr(SubnetIp(net, h, i - 1), h) == q - 1 by {
        ShrLowUnique(Shl(q - 1, h), h, q - 1, 0);
      }
    }
    ShrLowUnique(Shl(q, h), h, q, 0);
  }

  /**
   From a base network address whose h host bits are clear, subnet i
   starts i blocks of 2^h addresses later (`i << h`), and its host bits
   are clear.
   */
  lemma SubnetIpSpacing(net: nat, h: nat, i: nat)
    requires Low(net, h) == 0
    ensures SubnetIp(net, h, i) == net + Shl(i, h)
    ensures Low(SubnetIp(net, h, i), h) == 0
  {
    if i >= 1 {
      var q := Shr(net, h);
      assert net == Shl(q, h) by {
        RoundDown(net, h);
      }
      SubnetIpStep(net, h, i);
      ShlAdd(q, i, h);
    } else {
      ShlZero(h);
    }
  }

  /** From an aligned base network, each pass steps the subnet address by exactly 2^h. */
  lemma SubnetIpDistance(net: nat, h: nat, i: nat)
    requires i >= 1 && Low(net, h) == 0
    ensures SubnetIp(net, h, i) == SubnetIp(net, h, i - 1) + Pow2(h)
  {
    SubnetIpSpacing(net, h, i);
    SubnetIpSpacing(net, h, i - 1);
    ShlSucc(i - 1, h);
  }

  /** A subnet address with clear host bits has broadcast address 2^h - 1 above it. */
  lemma SubnetBroadcast(x: nat, p: nat, h: nat)
    requires p <= 32 && h == 32 - p && Low(x, h) == 0
    ensures BroadcastIp(x, PrefixToMask(p)) == x + Pow2(h) - 1
  {
    PrefixBroadcast(x, p, h);
  }

  /**
   From a base network address with clear host bits, subnet i is the i-th
   block of 2^h addresses, and its broadcast address closes that block.
   */
  lemma SubnetsLayout(net: nat, p: nat, h: nat, n: nat)
    requires p <= 32 && h == 32 - p && Low(net, h) == 0
    ensures var subs := Subnets(net, h, PrefixToMask(p), n);
            forall i :: 0 <= i < n ==>
              subs[i].ip == net + Shl(i, h) && Low(subs[i].ip, h) == 0 &&
              subs[i].broadcast == net + Shl(i + 1, h) - 1
  {
    var subs := Subnets(net, h, PrefixToMask(p), n);
    forall i | 0 <= i < n
      ensures subs[i].ip == net + Shl(i, h) && Low(subs[i].ip, h) == 0
      ensures subs[i].broadcast == net + Shl(i + 1, h) - 1
    {
      SubnetsAt(net, h, PrefixToMask(p), n, i);
      SubnetAtLayout(net, p, h, i);
    }
  }

  /** Subnet i is the i-th block of 2^h addresses from a base network address with clear host bits. */
  lemma SubnetAtLayout(net: nat, p: nat, h: nat, i: nat)
    requires p <= 32 && h == 32 - p && Low(net, h) == 0
    ensures var s := SubnetAt(net, h, PrefixToMask(p), i);
            s.ip == net + Shl(i, h) && Low(s.ip, h) == 0 && s.broadcast == net + Shl(i + 1, h) - 1
  {
    var x := SubnetIp(net, h, i);
    SubnetIpSpacing(net, h, i);
    SubnetBroadcast(x, p, h);
    ShlSucc(i, h);
  }

  /**
   When n blocks of 2^h addresses fit in 2^H, the n subnets lie within the
   2^H addresses from the base network address on.
   */
  lemma SubnetsInside(net: nat, p: nat, h: nat, n: nat, H: nat)
    requires p <= 32 && h == 32 - p && Low(net, h) == 0
    requires Shl(n, h) <= Pow2(H)
    ensures var subs := Subnets(net, h, PrefixToMask(p), n);
            forall i :: 0 <= i < n ==> net <= subs[i].ip && subs[i].broadcast <= net + Pow2(H) - 1
  {
    SubnetsLayout(net, p, h, n);
    var subs := Subnets(net, h, PrefixToMask(p), n);
    forall i | 0 <= i < n
      ensures subs[i].broadcast <= net + Pow2(H) - 1
    {
      ShlMono(i + 1, n, h);
    }
  }

  /** The subnets are disjoint and in increasing order: each ends before the next starts. */
  lemma SubnetsDisjoint(net: nat, p: nat, h: nat, n: nat)
    requires p <= 32 && h == 32 - p && Low(net, h) == 0
    ensures var subs := Subnets(net, h, PrefixToMask(p), n);
            forall i, j :: 0 <= i < j < n ==> subs[i].broadcast < subs[j].ip
  {
    SubnetsLayout(net, p, h, n);
    var subs := Subnets(net, h, PrefixToMask(p), n);
    forall i, j | 0 <= i < j < n
      ensures subs[i].broadcast < subs[j].ip
    {
      ShlMono(i + 1, j, h);
    }
  }

  // ---------------------------------------------------------------------
  // The plan for a base network given by a prefix

  /**
   Under the mask of prefix bp, with H = 32 - bp host bits, the base
   network address has its low h <= H bits clear, and the base broadcast
   address closes the block of 2^H addresses it starts.
   */
  lemma BaseNetwork(ip: nat, bp: nat, H: nat, h: nat)
    requires ip < Two32 && bp <= 32 && H == 32 - bp && h <= H
    ensures Low(NetworkIp(ip, PrefixToMask(bp)), h) == 0
    ensures BroadcastIp(ip, PrefixToMask(bp)) == NetworkIp(ip, PrefixToMask(bp)) + Pow2(H) - 1
  {
    PrefixNetwork(ip, bp, H);
    PrefixBroadcast(ip, bp, H);
    LowOfShl(Shr(ip, H), H, h);
  }

  /** For the mask of prefix bp, the plan is the subnets with the planned prefix p. */
  lemma PlanOfPrefix(ip: nat, bp: nat, n: nat, p: nat, h: nat)
    requires bp <= 32 && 1 <= n <= Two32
    requires PlannedPrefix(bp, n) == Some(p) && h == 32 - p
    ensures PlannedSubnets(ip, PrefixToMask(bp), n)
              == Some(Subnets(NetworkIp(ip, PrefixToMask(bp)), h, PrefixToMask(p), n))
  {
    MaskPrefixRoundTrip(bp);
    PlannedSubnetsOf(ip, PrefixToMask(bp), n, p, h);
  }

  /** The n planned blocks of 2^h addresses fit in the 2^H addresses of the base network. */
  lemma PlannedRoom(bp: nat, n: nat, p: nat, h: nat, H: nat)
    requires 1 <= n && PlannedPrefix(bp, n) == Some(p)
    requires h == 32 - p && H == 32 - bp
    ensures bp <= p && Shl(n, h) <= Pow2(H)
  {
    PlannedPrefixCovers(bp, n, p);
    BlocksFit(n, p - bp, h, H);
  }

  /**
   The planned subnets of a base network given by a prefix: subnet i is
   the i-th block of 2^h addresses from the base network address, with
   clear host bits and its broadcast closing the block; the subnets are
   disjoint, in increasing order, and inside the base network.
   */
  lemma PlannedSubnetsLayout(ip: nat, bp: nat, n: nat, p: nat, h: nat)
    requires ip < Two32 && bp <= 32 && 1 <= n <= Two32
    requires PlannedPrefix(bp, n) == Some(p) && h == 32 - p
    ensures PlannedSubnets(ip, PrefixToMask(bp), n).Some?
    ensures var subs := PlannedSubnets(ip, PrefixToMask(bp), n).value;
            var net := NetworkIp(ip, PrefixToMask(bp));
            forall i :: 0 <= i < n ==>
              subs[i].ip == net + Shl(i, h) && Low(subs[i].ip, h) == 0 &&
              subs[i].broadcast == net + Shl(i + 1, h) - 1
    ensures var subs := PlannedSubnets(ip, PrefixToMask(bp), n).value;
            forall i, j :: 0 <= i < j < n ==> subs[i].broadcast < subs[j].ip
    ensures var subs := PlannedSubnets(ip, PrefixToMask(bp), n).value;
            forall i :: 0 <= i < n ==>
              NetworkIp(ip, PrefixToMask(bp)) <= subs[i].ip &&
              subs[i].broadcast <= BroadcastIp(ip, PrefixToMask(bp))
  {
    var H := 32 - bp;
    PlannedRoom(bp, n, p, h, H);
    BaseNetwork(ip, bp, H, h);
    PlanOfPrefix(ip, bp, n, p, h);
    var net := NetworkIp(ip, PrefixToMask(bp));
    SubnetsLayout(net, p, h, n);
    SubnetsDisjoint(net, p, h, n);
    SubnetsInside(net, p, h, n, H);
  }

  /** n <= 2^k blocks of 2^h addresses fit in 2^(k + h) addresses. */
  lemma BlocksFit(n: nat, k: nat, h: nat, H: nat)
    requires n <= Pow2(k) && H == k + h
    ensures Shl(n, h) <= Pow2(H)
  {
    ShlMono(n, Pow2(k), h);
    ShlPow2(k, h);
  }

  /**
   A subnet with clear host bits under prefix p is a network of its own:
   `get_network_ip` gives back its address and `get_broadcast_ip` its
   broadcast, so its gateway and client pool are those `netcalc.py` would
   compute for it.
   */
  lemma SubnetSummary(s: Subnet, p: nat, h: nat)
    requires p <= 32 && h == 32 - p && Low(s.ip, h) == 0
    requires s.broadcast == BroadcastIp(s.ip, PrefixToMask(p)) && s.broadcast < Two32
    ensures s.ip < Two32
    ensures Summarize(s.ip, PrefixToMask(p)) == Summary(s.ip, s.broadcast, s.ip + 1, s.broadcast - 1)
  {
    SubnetBroadcast(s.ip, p, h);
    PrefixNetwork(s.ip, p, h);
  }

  // ---------------------------------------------------------------------
  // What the loop renders

  /**
   The values pass of subnet s renders, in order: `subnet_ip` for the
   progress line, then `subnet_ip`, `subnet_mask`, `first_ip_in_subnet` and
   `subnet_mask` for the dhcpd text, then each address of the client pool
   `range(subnet_ip + 2, subnet_bcast_ip)`. Every pool address lies inside
   the subnet, above its gateway.
   */
  function PassValues(s: Subnet, mask: nat): (vs: seq<int>)
    ensures |vs| == 5 + (if s.broadcast - s.ip - 2 > 0 then s.broadcast - s.ip - 2 else 0)
    ensures forall i :: 5 <= i < |vs| ==> s.ip + 2 <= vs[i] < s.broadcast
  {
    [s.ip, s.ip, mask, s.ip + 1, mask] + Range(s.ip + 2, s.broadcast)
  }

  /** The values the loop renders over all passes, pass after pass: five or more per subnet. */
  function SubnettingValues(subs: seq<Subnet>, mask: nat): (vs: seq<int>)
    ensures |vs| >= 5 * |subs|
  {
    if subs == [] then [] else PassValues(subs[0], mask) + SubnettingValues(subs[1..], mask)
  }

  /** A pass whose subnet address is below 255.255.255.255 renders every value. */
  lemma PassRenderedAll(s: Subnet, mask: nat)
    requires mask < Two32 && s.ip < AllOnes && s.broadcast <= AllOnes
    ensures |Rendered(PassValues(s, mask))| == |PassValues(s, mask)|
  {
    var vs := PassValues(s, mask);
    forall i | 0 <= i < |vs|
      ensures 0 <= vs[i] <= AllOnes
    {
    }
    RenderedAll(vs);
  }

  /**
   A pass at 255.255.255.255 stops at `first_ip_in_subnet`, which is 2^32:
   the progress line and two texts are rendered, then the script exits.
   */
  lemma PassRenderedLast(s: Subnet, mask: nat)
    requires mask < Two32 && s.ip == s.broadcast == AllOnes
    ensures |Rendered(PassValues(s, mask))| == 3 == |PassValues(s, mask)| - 2
  {
    var vs := PassValues(s, mask);
    assert vs == [s.ip, s.ip, mask, s.ip + 1, mask];
    RenderedPrefix(vs, 3);
  }

  /**
   For increasing, disjoint subnets within 32 bits, every value is rendered
   unless the last subnet is 255.255.255.255; then its last two values are
   not, because `ip_int_to_str(first_ip_in_subnet)` exits.
   */
  lemma {:induction false} SubnetsRendered(subs: seq<Subnet>, mask: nat)
    requires mask < Two32 && |subs| >= 1
    requires forall i :: 0 <= i < |subs| ==> subs[i].ip <= subs[i].broadcast <= AllOnes
    requires forall i, j :: 0 <= i < j < |subs| ==> subs[i].broadcast < subs[j].ip
    ensures |Rendered(SubnettingValues(subs, mask))| ==
              |SubnettingValues(subs, mask)| - (if subs[|subs| - 1].ip == AllOnes then 2 else 0)
  {
    var first := PassValues(subs[0], mask);
    var rest := subs[1..];
    assert SubnettingValues(subs, mask) == first + SubnettingValues(rest, mask);
    if |subs| == 1 {
      assert SubnettingValues(subs, mask) == first;
      if subs[0].ip == AllOnes {
        PassRenderedLast(subs[0], mask);
      } else {
        PassRenderedAll(subs[0], mask);
      }
    } else {
      assert subs[0].broadcast < subs[1].ip;
      PassRenderedAll(subs[0], mask);
      RenderedConcat(first, SubnettingValues(rest, mask));
      assert forall i :: 0 <= i < |rest| ==> rest[i] == subs[i + 1];
      SubnetsRendered(rest, mask);
      assert rest[|rest| - 1] == subs[|subs| - 1];
    }
  }

  /**
   What `subnetting.py` renders for a base network given by a prefix:
   everything, unless the last planned subnet is 255.255.255.255 (a /32
   subnet at the top of the address space), where `first_ip_in_subnet` is
   2^32 and the script exits before writing that subnet's file.
   */
  lemma SubnettingWritten(ip: nat, bp: nat, n: nat, p: nat, h: nat)
    requires ip < Two32 && bp <= 32 && 1 <= n <= Two32
    requires PlannedPrefix(bp, n) == Some(p) && h == 32 - p
    ensures PlannedSubnets(ip, PrefixToMask(bp), n).Some?
    ensures var subs := PlannedSubnets(ip, PrefixToMask(bp), n).value;
            var vs := SubnettingValues(subs, PrefixToMask(p));
            |Rendered(vs)| == if subs[n - 1].ip == AllOnes then |vs| - 2 else |vs|
  {
    PlannedSubnetsLayout(ip, bp, n, p, h);
    PlanOfPrefix(ip, bp, n, p, h);
    var subs := PlannedSubnets(ip, PrefixToMask(bp), n).value;
    var net := NetworkIp(ip, PrefixToMask(bp));
    assert BroadcastIp(ip, PrefixToMask(bp)) < Two32 by {
      BroadcastBound(ip, PrefixToMask(bp));
    }
    forall i | 0 <= i < n
      ensures subs[i].ip <= subs[i].broadcast <= AllOnes
    {
      SubnetsAt(net, h, PrefixToMask(p), n, i);
    }
    SubnetsRendered(subs, PrefixToMask(p));
  }

}
