/**
 The range arithmetic of `netcalc.py` and `ipcalc.py`: the network and
 broadcast addresses of an address under a mask, the first and last host
 addresses, the client pool `range(net_ip + 2, broadcast_ip)` (the
 address `net_ip + 1` goes to the default gateway), and the addresses each
 script renders in order until a value outside 32 bits stops it.
 */
module Ranges {
  import opened Options
  import opened Bits
  import opened Codec
  import opened Masks

  /** Python's `range(lo, hi)` as the sequence of integers it enumerates. */
  function Range(lo: int, hi: int): (r: seq<int>)
    ensures |r| == if lo < hi then hi - lo else 0
    ensures forall i :: 0 <= i < |r| ==> r[i] == lo + i
    decreases hi - lo
  {
    if lo >= hi then [] else [lo] + Range(lo + 1, hi)
  }

  /** An integer is enumerated by `range(lo, hi)` exactly when lo <= x < hi. */
  lemma RangeMembers(lo: int, hi: int, x: int)
    ensures x in Range(lo, hi) <==> lo <= x < hi
  {
    var r := Range(lo, hi);
    if lo <= x < hi {
      assert r[x - lo] == x;
    }
  }

  /** The four values `main` computes from `ip` and `netmask`. */
  datatype Summary = Summary(net: nat, broadcast: nat, first: int, last: int)

  /**
   `net_ip = ip & netmask`, `broadcast_ip = ip | wildcard(netmask)`,
   `first_ip = net_ip + 1` and `last_ip = broadcast_ip - 1`.
   */
  function Summarize(ip: nat, netmask: nat): (s: Summary)
    requires ip < Two32 && netmask < Two32
    ensures s.net <= ip <= s.broadcast <= AllOnes
    ensures s.first == s.net + 1 && s.last == s.broadcast - 1
  {
    var net := NetworkIp(ip, netmask);
    var bcast := BroadcastIp(ip, netmask);
    BroadcastBound(ip, netmask);
    Summary(net, bcast, net + 1, bcast - 1)
  }

  /**
   Under the mask of prefix p, with h = 32 - p host bits, the network is
   the block of 2^h addresses that holds `ip`, starting at a multiple of 2^h.
   */
  lemma SummaryOfPrefix(ip: nat, p: nat, h: nat)
    requires ip < Two32 && p <= 32 && h == 32 - p
    ensures Summarize(ip, PrefixToMask(p)).net == ip - Low(ip, h)
    ensures Low(Summarize(ip, PrefixToMask(p)).net, h) == 0
    ensures Summarize(ip, PrefixToMask(p)).broadcast - Summarize(ip, PrefixToMask(p)).net + 1 == Pow2(h)
  {
    PrefixNetwork(ip, p, h);
    PrefixBroadcast(ip, p, h);
    LowOfShl(Shr(ip, h), h, h);
  }

  /**
   `client_ip_range = range(net_ip + 2, broadcast_ip)`: exactly the
   addresses above the gateway `net_ip + 1` and below the broadcast address.
   */
  function ClientPool(s: Summary): (pool: seq<int>)
    ensures forall x :: x in pool <==> s.net + 2 <= x < s.broadcast
  {
    RangeMembersAll(s.net + 2, s.broadcast);
    Range(s.net + 2, s.broadcast)
  }

  lemma RangeMembersAll(lo: int, hi: int)
    ensures forall x :: x in Range(lo, hi) <==> lo <= x < hi
  {
    forall x {
      RangeMembers(lo, hi, x);
    }
  }

  /**
   Pool entry i is address `net_ip + 2 + i`; there are
   max(0, broadcast_ip - net_ip - 2) of them; the pool holds neither the
   network address, nor the gateway `net_ip + 1`, nor the broadcast
   address, and every entry is a 32-bit address.
   */
  lemma ClientPoolShape(ip: nat, netmask: nat)
    requires ip < Two32 && netmask < Two32
    ensures var s := Summarize(ip, netmask);
            |ClientPool(s)| == (if s.broadcast - s.net - 2 > 0 then s.broadcast - s.net - 2 else 0)
    ensures var s := Summarize(ip, netmask);
            forall i :: 0 <= i < |ClientPool(s)| ==> ClientPool(s)[i] == s.net + 2 + i
    ensures var s := Summarize(ip, netmask);
            forall x :: x in ClientPool(s) <==> s.net + 2 <= x < s.broadcast
    ensures var s := Summarize(ip, netmask);
            s.net !in ClientPool(s) && s.first !in ClientPool(s) && s.broadcast !in ClientPool(s)
    ensures var s := Summarize(ip, netmask);
            forall x :: x in ClientPool(s) ==> 0 <= x <= AllOnes
  {
  }

  // ---------------------------------------------------------------------
  // What the scripts render

  /**
   The dotted texts a script produces for the values `vs`, rendered in
   order with `ip_int_to_str`, up to the first value outside 32 bits: there
   `ip_int_to_str` calls `sys.exit()` and nothing after it is rendered.
   */
  function Rendered(vs: seq<int>): (out: seq<string>)
    ensures |out| <= |vs|
    ensures forall i :: 0 <= i < |out| ==> IpIntToStr(vs[i]) == Some(out[i])
    ensures |out| < |vs| ==> IpIntToStr(vs[|out|]).None?
  {
    if vs == [] then []
    else
      match IpIntToStr(vs[0])
      case None => []
      case Some(text) => [text] + Rendered(vs[1..])
  }

  /** Every value of `vs` is rendered exactly when all of them lie in 0 .. 0xFFFFFFFF. */
  lemma RenderedAll(vs: seq<int>)
    ensures |Rendered(vs)| == |vs| <==> forall i :: 0 <= i < |vs| ==> 0 <= vs[i] <= AllOnes
  {
    var out := Rendered(vs);
    if |out| < |vs| {
      assert !(0 <= vs[|out|] <= AllOnes);
    }
  }

  /**
   The values `ipcalc.py` prints, in order: ip, netmask, net_ip, bcast_ip,
   first_ip and last_ip.
   */
  function IpcalcValues(ip: nat, netmask: nat): (vs: seq<int>)
    requires ip < Two32 && netmask < Two32
    ensures |vs| == 6 && vs[2] <= vs[0] <= vs[3]
    ensures forall i :: 0 <= i < 4 ==> 0 <= vs[i] <= AllOnes
  {
    var s := Summarize(ip, netmask);
    [ip, netmask, s.net, s.broadcast, s.first, s.last]
  }

  /**
   `ipcalc.py` prints all six lines unless the network address is
   255.255.255.255 (then `first_ip` is 2^32 and it stops after four) or the
   broadcast address is 0.0.0.0 (then `last_ip` is -1 and it stops after five).
   */
  lemma IpcalcPrinted(ip: nat, netmask: nat)
    requires ip < Two32 && netmask < Two32
    ensures var s := Summarize(ip, netmask);
            |Rendered(IpcalcValues(ip, netmask))| ==
              if s.net == AllOnes then 4 else if s.broadcast == 0 then 5 else 6
  {
    var s := Summarize(ip, netmask);
    var vs := IpcalcValues(ip, netmask);
    assert forall i :: 0 <= i < 4 ==> 0 <= vs[i] <= AllOnes;
    if s.net == AllOnes {
      RenderedPrefix(vs, 4);
    } else if s.broadcast == 0 {
      assert forall i :: 0 <= i < 5 ==> 0 <= vs[i] <= AllOnes;
      RenderedPrefix(vs, 5);
    } else {
      assert forall i :: 0 <= i < 6 ==> 0 <= vs[i] <= AllOnes;
      RenderedAll(vs);
    }
  }

  /** When the first k values are in range and value k is not, exactly k texts are rendered. */
  lemma {:induction false} RenderedPrefix(vs: seq<int>, k: nat)
    requires k < |vs|
    requires forall i :: 0 <= i < k ==> 0 <= vs[i] <= AllOnes
    requires !(0 <= vs[k] <= AllOnes)
    ensures |Rendered(vs)| == k
  {
    if k > 0 {
      assert IpIntToStr(vs[0]).Some?;
      assert vs[1..][k - 1] == vs[k];
      RenderedPrefix(vs[1..], k - 1);
    }
  }

  /**
   Rendering a concatenation renders the first part, and goes on into the
   second part only when every value of the first part was rendered.
   */
  lemma {:induction false} RenderedConcat(a: seq<int>, b: seq<int>)
    ensures |Rendered(a + b)| == if |Rendered(a)| == |a| then |a| + |Rendered(b)| else |Rendered(a)|
  {
    if a == [] {
      assert a + b == b;
    } else {
      var ab := a + b;
      assert ab[0] == a[0] && ab[1..] == a[1..] + b;
      if IpIntToStr(a[0]).Some? {
        assert |Rendered(a)| == 1 + |Rendered(a[1..])|;
        assert |Rendered(ab)| == 1 + |Rendered(a[1..] + b)|;
        RenderedConcat(a[1..], b);
      }
    }
  }

  /**
   The values `netcalc.py` renders into its dhcpd file, in order: the
   network, the mask, the gateway `net_ip + 1`, the mask again, then each
   address of the client pool.
   */
  function NetcalcValues(ip: nat, netmask: nat): (vs: seq<int>)
    requires ip < Two32 && netmask < Two32
    ensures |vs| >= 4 && vs[1] == vs[3] == netmask
    ensures forall i :: 4 <= i < |vs| ==> vs[0] + 2 <= vs[i] < AllOnes
  {
    var s := Summarize(ip, netmask);
    [s.net, netmask, s.net + 1, netmask] + ClientPool(s)
  }

  /**
   `netcalc.py` renders every value unless the network address is
   255.255.255.255, where the gateway line stops it after two.
   */
  lemma NetcalcWritten(ip: nat, netmask: nat)
    requires ip < Two32 && netmask < Two32
    ensures var s := Summarize(ip, netmask);
            |Rendered(NetcalcValues(ip, netmask))| ==
              if s.net == AllOnes then 2 else |NetcalcValues(ip, netmask)|
  {
    var s := Summarize(ip, netmask);
    var vs := NetcalcValues(ip, netmask);
    ClientPoolShape(ip, netmask);
    if s.net == AllOnes {
      RenderedPrefix(vs, 2);
    } else {
      forall i | 0 <= i < |vs|
        ensures 0 <= vs[i] <= AllOnes
      {
        if i >= 4 {
          assert vs[i] == ClientPool(s)[i - 4];
          assert vs[i] in ClientPool(s);
        }
      }
      RenderedAll(vs);
    }
  }

}
