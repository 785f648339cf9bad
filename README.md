# IPv4 address arithmetic of the network scripts

This project models the integer address arithmetic shared by three IPv4
command-line scripts, and proves properties of that model:

- `splitting_into_subnetworks/subnetting.py` splits a base network into n
  subnets of equal size;
- `base_network_calculation/netcalc.py` computes a network's gateway and
  client pool for a dhcpd configuration;
- `ipcalc/ipcalc.py` prints an address with its mask, network, broadcast,
  first and last host addresses.

Python integers are modelled as `nat`. `&`, `|` and `^` are defined bit by bit
(`Bits.And`, `Bits.Or`, `Bits.Xor`). `a >> k` is `Bits.Shr(a, k)` and
`a << k` is `Bits.Shl(a, k)`, which equals a·2^k (`Bits.ShlMul`).
`Bits.Low(a, k)` is the value of the low k bits of a. A prefix of length p
names the mask whose top p of 32 bits are set: the prefix notation of
section 3.1 of RFC 4632.

The modules:

- `Codec`: `ip_str_to_int`, `ip_int_to_str` and `is_valid_ip`. These are
  copied identically into all three scripts and are modelled once.
- `Masks`: `wildcard`, `get_network_ip`, `get_broadcast_ip`,
  `prefix_to_mask`, `get_bit_count`, `mask_to_prefix`, and the mask built
  from the text of a `/N` argument.
- `Planner`: `pref_by_subnets`. It smears n − 1, counts the set bits and
  adds the base prefix.
- `Ranges`: network, broadcast, first and last addresses, and the client
  pool. It also covers which values each script renders before an
  out-of-range value stops it.
- `Subnetting`: the enumeration loop of `subnetting.py`'s `main`.
  - The planning steps become `Subnetting.Enumerate`, and the loop itself
    becomes the method `Subnetting.Walk` that it calls.
  - The loop is proved equal to the recursive specification
    `Subnetting.PlannedSubnets`.
  - Layout, disjointness and containment are proved about that
    specification.
  - The addresses each pass renders are `Subnetting.SubnettingValues`.
    `Subnetting.SubnettingWritten` states that everything is rendered unless
    the last subnet is 255.255.255.255, where the script exits.

The script's `sys.exit()` paths and the `None` results are modelled as
`Option.None`. This covers three cases:

- `ip_int_to_str` on a value outside 0..0xFFFFFFFF;
- a `/N` argument with N outside 0..32;
- a planner result of `None`. The script then fails in `prefix_to_mask(None)`.

## Model

| member | source | states |
|---|---|---|
| Codec.DecimalRoundTrip | splitting_into_subnetworks/subnetting.py:34-37 | `str(n)` writes digits with no leading zero, and `int(str(n)) == n` |
| Codec.DecimalStringOfValue | splitting_into_subnetworks/subnetting.py:17 | `str(int(s)) == s` for a digit string without a leading zero |
| Codec.Split | splitting_into_subnetworks/subnetting.py:13 | `s.split('.')` gives at least one field, and no field holds a dot |
| Codec.SplitJoin | splitting_into_subnetworks/subnetting.py:13 | splitting the dot-join of dot-free fields gives the fields back |
| Codec.JoinSplit | splitting_into_subnetworks/subnetting.py:13 | joining the fields of `s.split('.')` with dots gives `s` back |
| Codec.PackIsSum | splitting_into_subnetworks/subnetting.py:22-25 | the shift-and-OR packing of four octets equals o0·2^24 + o1·2^16 + o2·2^8 + o3 |
| Codec.IpStrToInt | splitting_into_subnetworks/subnetting.py:12-25 | `None` when the text does not have exactly 4 fields. With 4 fields: `None` iff some octet exceeds 255, otherwise the big-endian sum of the octets, below 2^32. The copies in `netcalc.py` and `ipcalc.py` are identical |
| Codec.OctetAtIsDigit256 | splitting_into_subnetworks/subnetting.py:34-37 | `(x >> k) & 0xFF` is the low 8 bits of `x >> k`, below 256 |
| Codec.OctetsRecompose | splitting_into_subnetworks/subnetting.py:34-37 | the four rendered octets of a 32-bit x recompose x big-endian |
| Codec.DottedFields | splitting_into_subnetworks/subnetting.py:34-37 | splitting the rendered text at dots gives the four decimal strings, each canonical |
| Codec.IpIntToStr | splitting_into_subnetworks/subnetting.py:29-37 | a text iff 0 <= x <= 0xFFFFFFFF (otherwise the exit path). The text has four canonical decimal fields, each at most 255. The copies in `netcalc.py` and `ipcalc.py` are identical |
| Codec.ParseRendered | splitting_into_subnetworks/subnetting.py:12-37 | `ip_str_to_int(ip_int_to_str(x)) == x` for every x in [0, 2^32) |
| Codec.ParseDotted | splitting_into_subnetworks/subnetting.py:12-25 | the text of four octets below 256 parses to their big-endian sum |
| Codec.RenderParsed | splitting_into_subnetworks/subnetting.py:12-37 | `ip_int_to_str(ip_str_to_int(s)) == s` for dotted text of four octets ≤ 255 without leading zeros |
| Codec.RenderOctets | splitting_into_subnetworks/subnetting.py:29-37 | rendering the big-endian sum of four octets writes those octets |
| Codec.DottedOfCanonical | splitting_into_subnetworks/subnetting.py:12-37 | canonical dotted text is the rendering of its own four field values |
| Codec.OctetsOfSum | splitting_into_subnetworks/subnetting.py:34-37 | each octet extracted from the big-endian sum is the octet put in |
| Codec.IsValidIp | splitting_into_subnetworks/subnetting.py:40-42 | accepted text splits at dots into exactly four fields, each of one to three decimal digits |
| Codec.IsValidIpIsPattern | splitting_into_subnetworks/subnetting.py:40-42 | `is_valid_ip` accepts exactly the dot-joins of four octet tokens |
| Codec.OctetTokenMeaning | splitting_into_subnetworks/subnetting.py:41 | a token matches `25[0-5]\|2[0-4]\d\|1\d{2}\|\d{1,2}` iff it is 1 to 3 digits, its value is ≤ 255, and a 3-digit token does not start with 0 |
| Codec.CanonicalLength | splitting_into_subnetworks/subnetting.py:41 | a canonical decimal of value ≤ 255 has at most 3 digits |
| Codec.ValidIpConverts | splitting_into_subnetworks/subnetting.py:40-42 | every text `is_valid_ip` accepts makes `ip_str_to_int` return a value, not `None` |
| Codec.RenderedIsValid | splitting_into_subnetworks/subnetting.py:29-42 | every text `ip_int_to_str` renders passes `is_valid_ip` |
| Bits.XorAllOnes | splitting_into_subnetworks/subnetting.py:95 | XOR with n one-bits is the complement 2^n − 1 − a for a < 2^n |
| Bits.ClearLowestSetBit | splitting_into_subnetworks/subnetting.py:117 | for v > 0, `v & (v - 1)` is smaller than v and has one set bit fewer |
| Masks.Wildcard | splitting_into_subnetworks/subnetting.py:87-95 | `wildcard(m)` is 0xFFFFFFFF − m for a 32-bit m. The copies in `netcalc.py` and `ipcalc.py` are identical |
| Masks.WildcardComplements | splitting_into_subnetworks/subnetting.py:87-95 | m & wildcard(m) == 0, m \| wildcard(m) == 0xFFFFFFFF, and wildcard is a 32-bit involution |
| Masks.NetworkIp | splitting_into_subnetworks/subnetting.py:98-99 | `get_network_ip(ip, mask)` is never above ip |
| Masks.BroadcastIp | splitting_into_subnetworks/subnetting.py:102-103 | `get_broadcast_ip(ip, mask)` is never below ip |
| Masks.BroadcastBound | splitting_into_subnetworks/subnetting.py:102-103 | for a 32-bit address and mask, the broadcast address is a 32-bit address |
| Masks.PrefixToMask | splitting_into_subnetworks/subnetting.py:106-107 | the mask of a prefix 0..32 is a 32-bit value |
| Masks.PrefixMaskValue | splitting_into_subnetworks/subnetting.py:106-107 | `((1 << p) - 1) << (32 - p)` equals 2^32 − 2^(32−p) |
| Masks.PrefixMaskBits | splitting_into_subnetworks/subnetting.py:106-107 | the mask of prefix p has bit i set exactly when 32 − p <= i < 32 |
| Masks.PrefixWildcard | splitting_into_subnetworks/subnetting.py:87-107 | the wildcard of the mask of prefix p is 2^(32−p) − 1 |
| Masks.PrefixNetwork | splitting_into_subnetworks/subnetting.py:98-107 | under a prefix mask the network address clears the 32 − p host bits: `((ip >> h) << h)`, that is ip − Low(ip, h) |
| Masks.PrefixBroadcast | splitting_into_subnetworks/subnetting.py:102-107 | under a prefix mask the broadcast address is the network address plus 2^(32−p) − 1 |
| Masks.GetBitCount | splitting_into_subnetworks/subnetting.py:113-118 | the loop ends and returns the number of set bits of its argument |
| Masks.MaskToPrefix | splitting_into_subnetworks/subnetting.py:121-122 | the prefix is the number of set bits of the mask, at most 32 for a 32-bit mask |
| Masks.MaskPrefixRoundTrip | splitting_into_subnetworks/subnetting.py:106-122 | `mask_to_prefix(prefix_to_mask(p)) == p` for 0 <= p <= 32 |
| Masks.NonContiguousMaskPrefix | splitting_into_subnetworks/subnetting.py:121-122 | the non-contiguous mask 255.0.255.0 yields prefix 16, though no prefix has that mask |
| Masks.BinaryValueOfOnes | splitting_into_subnetworks/subnetting.py:74 | `int('1' * N, 2)` is 2^N − 1 |
| Masks.BinaryValueShift | splitting_into_subnetworks/subnetting.py:74 | appending k zero digits shifts the binary value left by k |
| Masks.PrefixArgMask | ipcalc/ipcalc.py:79-86 | the `/N` branch exits unless 0 <= N <= 32; otherwise `int('1'*N + '0'*(32-N), 2)` equals `prefix_to_mask(N)`. `subnetting.py` and `netcalc.py` have the same branch |
| Planner.SmearStep | splitting_into_subnetworks/subnetting.py:130-134 | one step `x \|= x >> s` extends the run of set bits below the top bit from t to t + s bits, for s <= t |
| Planner.SmearSteps | splitting_into_subnetworks/subnetting.py:130-134 | the five smear steps on v < 2^32 give 2^BitLen(v) − 1: every bit below the top bit set |
| Planner.Smear | splitting_into_subnetworks/subnetting.py:129-134 | the smear of v is 2^BitLen(v) − 1, with BitLen(v) set bits |
| Planner.LeastCover | splitting_into_subnetworks/subnetting.py:129-137 | k = BitLen(n − 1) is the least k with 2^k >= n |
| Planner.PlannedPrefix | splitting_into_subnetworks/subnetting.py:128-138 | a planned prefix lies between the base prefix and 32; for n == 1 it is the base prefix itself (when at most 32) |
| Planner.PlannedPrefixCovers | splitting_into_subnetworks/subnetting.py:128-138 | with planned prefix p, the n subnets fit: n <= 2^(p − bp) |
| Planner.PlannedPrefixLeast | splitting_into_subnetworks/subnetting.py:128-138 | no shorter prefix fits n subnets. When the result is `None`, no prefix up to 32 fits them |
| Planner.PrefBySubnets | splitting_into_subnetworks/subnetting.py:128-138 | the smear-and-count steps compute exactly the planned prefix |
| Ranges.Range | base_network_calculation/netcalc.py:119 | `range(lo, hi)` has max(0, hi − lo) entries, entry i being lo + i |
| Ranges.RangeMembers | base_network_calculation/netcalc.py:119 | x is in `range(lo, hi)` iff lo <= x < hi |
| Ranges.Summarize | base_network_calculation/netcalc.py:115-123 | net_ip <= ip <= broadcast_ip <= 0xFFFFFFFF, first_ip = net_ip + 1, last_ip = broadcast_ip − 1. `ipcalc.py` computes the same four values (`ipcalc/ipcalc.py:110-122`); `subnetting.py` computes only net_ip and broadcast_ip (lines 171-172) |
| Ranges.SummaryOfPrefix | base_network_calculation/netcalc.py:115-116 | under a prefix mask the network is the aligned block of 2^(32−p) addresses holding ip |
| Ranges.ClientPool | base_network_calculation/netcalc.py:119 | the pool holds exactly the addresses x with net_ip + 2 <= x < broadcast_ip |
| Ranges.ClientPoolShape | base_network_calculation/netcalc.py:118-119 | pool entry i is net_ip + 2 + i. There are max(0, broadcast_ip − net_ip − 2) entries. The pool excludes the network, gateway and broadcast addresses, and all entries are 32-bit |
| Ranges.Rendered | base_network_calculation/netcalc.py:29-37 | the texts rendered in order are the renderings of the values, up to the first value outside 32 bits, where the exit stops it |
| Ranges.RenderedAll | base_network_calculation/netcalc.py:126-137 | every value is rendered iff all values lie in 0..0xFFFFFFFF |
| Ranges.RenderedPrefix | ipcalc/ipcalc.py:114-122 | when the first k values are in range and value k is not, exactly k texts are rendered |
| Ranges.IpcalcPrinted | ipcalc/ipcalc.py:114-122 | `ipcalc.py` prints six addresses, except four when net_ip is 255.255.255.255 (first_ip = 2^32) and five when broadcast_ip is 0 (last_ip = −1) |
| Ranges.IpcalcValues | ipcalc/ipcalc.py:114-122 | six values; net_ip <= ip <= broadcast_ip; the first four (ip, netmask, net_ip, bcast_ip) are always 32-bit |
| Ranges.NetcalcValues | base_network_calculation/netcalc.py:126-137 | the mask is rendered twice after the network and the gateway; every pool value lies between net_ip + 2 and 0xFFFFFFFF − 1 |
| Ranges.RenderedConcat | base_network_calculation/netcalc.py:126-137 | rendering two value lists in a row goes on into the second only when the first rendered completely |
| Ranges.NetcalcWritten | base_network_calculation/netcalc.py:126-137 | `netcalc.py` renders every value, except only two when net_ip is 255.255.255.255 (the gateway is 2^32) |
| Subnetting.Subnets | splitting_into_subnetworks/subnetting.py:181-190 | one subnet per pass of the loop |
| Subnetting.SubnetsAt | splitting_into_subnetworks/subnetting.py:181-190 | entry i of the list is the subnet of pass i |
| Subnetting.PlannedSubnets | splitting_into_subnetworks/subnetting.py:171-190 | no subnets iff the planner finds no prefix. Otherwise n subnets, the first at net_ip |
| Subnetting.Enumerate | splitting_into_subnetworks/subnetting.py:171-190 | planning the prefix and mask, then walking, produces exactly the planned subnets, or none when no prefix fits |
| Subnetting.Walk | splitting_into_subnetworks/subnetting.py:179-190 | the loop carrying `prev_subnet_ip` produces, pass by pass, exactly the subnets of the `SubnetIp` recurrence with their broadcast addresses |
| Subnetting.SubnetIp | splitting_into_subnetworks/subnetting.py:184-188 | the `prev_subnet_ip` recurrence: from pass 1 on, every subnet address has its h host bits clear |
| Subnetting.SubnetIpDistance | splitting_into_subnetworks/subnetting.py:184-188 | from an aligned base network, each pass's subnet address is exactly 2^h above the previous pass's |
| Subnetting.SubnetIpStep | splitting_into_subnetworks/subnetting.py:184-189 | from pass 1 on, the subnet address is `((net_ip >> h) + i) << h`, so its host bits are clear |
| Subnetting.SubnetIpSpacing | splitting_into_subnetworks/subnetting.py:179-189 | from an aligned base, subnet i starts at net_ip + (i << h) |
| Subnetting.SubnetBroadcast | splitting_into_subnetworks/subnetting.py:190 | an aligned subnet's broadcast address is 2^h − 1 above it |
| Subnetting.SubnetAtLayout | splitting_into_subnetworks/subnetting.py:184-190 | subnet i is the i-th block of 2^h addresses from an aligned base, and its broadcast closes that block |
| Subnetting.SubnetsLayout | splitting_into_subnetworks/subnetting.py:179-190 | every subnet starts at net_ip + (i << h) with host bits clear and ends at net_ip + ((i + 1) << h) − 1: consecutive subnets are 2^h apart |
| Subnetting.SubnetsInside | splitting_into_subnetworks/subnetting.py:171-190 | when n << h fits in 2^H, every subnet lies within the 2^H addresses from net_ip |
| Subnetting.SubnetsDisjoint | splitting_into_subnetworks/subnetting.py:181-190 | each subnet ends before every later one starts: disjoint and increasing |
| Subnetting.BaseNetwork | splitting_into_subnetworks/subnetting.py:171-172 | under the base prefix mask, net_ip is aligned and broadcast_ip closes its block of 2^(32−bp) addresses |
| Subnetting.PlanOfPrefix | splitting_into_subnetworks/subnetting.py:173-177 | for the mask of prefix bp, the plan uses the planned prefix of bp and n |
| Subnetting.PlannedRoom | splitting_into_subnetworks/subnetting.py:173-177 | the n planned blocks of 2^(32−p) addresses fit in the base network's 2^(32−bp) |
| Subnetting.PlannedSubnetsLayout | splitting_into_subnetworks/subnetting.py:171-190 | for a prefix base mask the planned subnets are aligned, 2^(32−p) apart, pairwise disjoint and inside [net_ip, broadcast_ip] |
| Subnetting.SubnetSummary | splitting_into_subnetworks/subnetting.py:190-206 | each planned subnet is a network of its own: its network and broadcast are the subnet's addresses, so its gateway and client pool follow |
| Subnetting.PassValues | splitting_into_subnetworks/subnetting.py:192-210 | one pass renders 5 + max(0, bcast − ip − 2) values; every pool value lies in [subnet_ip + 2, subnet_bcast_ip) |
| Subnetting.SubnettingValues | splitting_into_subnetworks/subnetting.py:181-210 | the loop renders at least five values per subnet, pass after pass |
| Subnetting.PassRenderedAll | splitting_into_subnetworks/subnetting.py:192-210 | a pass whose subnet address is below 255.255.255.255 renders every value |
| Subnetting.PassRenderedLast | splitting_into_subnetworks/subnetting.py:191-198 | a pass at 255.255.255.255 renders three values and exits at `first_ip_in_subnet` = 2^32, before its file is written |
| Subnetting.SubnetsRendered | splitting_into_subnetworks/subnetting.py:181-210 | for increasing, disjoint 32-bit subnets, everything renders unless the last subnet is 255.255.255.255, where its last two values do not |
| Subnetting.SubnettingWritten | splitting_into_subnetworks/subnetting.py:171-210 | for a base network given by a prefix, the loop renders everything unless the last planned subnet is 255.255.255.255; then the script exits on that pass |

## Left out

- Argument parsing (`argparse` in `parse_ip_netmask`), `print` and the
  `sys.exit` calls. Each exit becomes `None` in the model.
- `is_valid_ip_v2`: it calls `socket.inet_aton`, a C routine with lenient
  short and hexadecimal forms.
- The dotted-mask branch of `ipcalc/ipcalc.py:88` reads `args.netmask`, an
  attribute the parser never defines. This is command-line plumbing and is
  not part of this model.
- File writing and the dhcpd template text (`subnetting.py:192-210`,
  `netcalc.py:126-137`). Only the sequence of addresses they render is
  modelled (`Subnetting.SubnettingValues`, `Ranges.NetcalcValues`,
  `Ranges.IpcalcValues`, `Ranges.Rendered`).
- `parse_args/parse_args.py` is not part of this model. It has no network
  logic.
- Codec.IsValidIp: `\d` in Python's `re` also matches non-ASCII decimal
  digits. The model accepts only the ASCII digits 0-9.
- Codec.IpStrToInt: requires every field of four-field text to be decimal
  digits. Python's `int()` also accepts whitespace, signs, underscores and
  Unicode digits, and raises `ValueError` on other text; neither behaviour
  is modelled.
- Planner.PrefBySubnets: requires 1 <= n <= 2^32. For n <= 0,
  `get_bit_count` loops forever on a negative value, and beyond 2^32 the
  five smear steps no longer reach every bit.
- Subnetting.Enumerate: requires 1 <= n <= 2^32, for the same reason. It
  returns all n subnets and does not render them. When the last subnet is
  255.255.255.255, the script exits on that pass at
  `ip_int_to_str(first_ip_in_subnet)` (`subnetting.py:191-198`). This exit is
  stated by `Subnetting.SubnettingWritten` for the rendered values, not by
  `Subnetting.Enumerate`.
- Subnetting.PlannedSubnetsLayout: alignment, disjointness and containment
  are proved for a base mask given by a prefix. For a non-contiguous dotted
  mask, `mask_to_prefix` still counts its set bits. The enumeration
  (`Subnetting.Enumerate`, `Subnetting.PlannedSubnets`) models that case as
  is, but no layout is claimed for it.
