/// The prefix arithmetic of a CIDR block (section 3.1 of RFC 4632): the mask and
/// wildcard of a prefix length, the network and broadcast addresses of a block,
/// its host range and counts, and the error cases of the block summary.
module Block {
  import opened Bits
  import opened Text
  import opened Address

  // ---------------------------------------------------------------------
  // Masks.

  /** What prefixToMask returns: the mask as an unsigned 32-bit value and in
      dotted-decimal form. */
  datatype Mask = Mask(maskInt: nat, maskStr: string)

  /** The mask value of prefixToMask: `(0xFFFFFFFF << (32 - p)) >>> 0`, with
      prefix 0 answered separately because a shift by 32 shifts by 0 in
      JavaScript. */
  function MaskInt(p: int): (m: nat)
    ensures m < TwoTo32
  {
    if p == 0 then 0 else ToUint32(ShiftLeft(0xFFFF_FFFF, 32 - p))
  }

  /** prefixToMask: the mask and its dotted form. */
  function PrefixToMask(p: int): (m: Mask)
    ensures m.maskInt < TwoTo32
  {
    var maskInt := MaskInt(p);
    Mask(maskInt, IntToIp(maskInt))
  }

  /** The mask of prefix p is 2^32 - 2^(32 - p): p one bits above 32 - p zero bits. */
  lemma MaskValue(p: int)
    requires 0 <= p <= 32
    ensures MaskInt(p) == TwoTo32 - Pow2(32 - p)
  {
    Pow2Constants();
    if p != 0 {
      AllOnesShifted(32 - p);
    }
  }

  /** The mask of prefix p is the 32-bit value whose bits from 32 - p up are set. */
  lemma MaskIsHighMask(p: int)
    requires 0 <= p <= 32
    ensures MaskInt(p) == HighMask(32, 32 - p)
  {
    MaskValue(p);
    HighMaskValue(32, 32 - p);
    Pow2Constants();
  }

  /** Exactly the top p bits of the mask are set. */
  lemma MaskBits(p: int, j: nat)
    requires 0 <= p <= 32 && j < 32
    ensures Bit(MaskInt(p), j) == if j >= 32 - p then 1 else 0
  {
    MaskIsHighMask(p);
    HighMaskBit(32, 32 - p, j);
  }

  /** Prefix 0 has the empty mask and prefix 32 the full one. */
  lemma MaskEnds(p: int)
    ensures p == 0 ==> MaskInt(p) == 0
    ensures p == 32 ==> MaskInt(p) == 0xFFFF_FFFF
  {
    if p == 32 {
      MaskValue(p);
    }
  }

  /** Without the separate answer for prefix 0, the shift by 32 would give the
      full mask instead of the empty one. */
  lemma ZeroPrefixShift()
    ensures ToUint32(ShiftLeft(0xFFFF_FFFF, 32 - 0)) == 0xFFFF_FFFF != MaskInt(0)
  {
    AllOnesShifted32();
  }

  /** Masks are nested: a shorter prefix's mask is contained in a longer one's. */
  lemma MaskMonotone(p1: int, p2: int)
    requires 0 <= p1 <= p2 <= 32
    ensures ToUint32(BitAnd(MaskInt(p1), MaskInt(p2))) == MaskInt(p1)
  {
    var m1, m2 := MaskInt(p1), MaskInt(p2);
    BitAndUint32(m1, m2);
    assert ToUint32(BitAnd(m1, m2)) == And(m1, m2, 32);
    MasksNest(p1, p2);
  }

  /** The 32-bit AND of a shorter prefix's mask with a longer one's. */
  lemma MasksNest(p1: int, p2: int)
    requires 0 <= p1 <= p2 <= 32
    ensures And(MaskInt(p1), MaskInt(p2), 32) == MaskInt(p1)
  {
    MaskIsHighMask(p1);
    MaskIsHighMask(p2);
    AndHighMasks(32, 32 - p1, 32 - p2);
  }

  /** wildcardFromMask: `(~maskInt) >>> 0` in dotted-decimal form. */
  function WildcardFromMask(maskInt: int): string
  {
    IntToIp(ToUint32(BitNot(maskInt)))
  }

  /** The wildcard reads back as the complement of the mask: the two add up to
      2^32 - 1. */
  lemma WildcardComplement(maskInt: int)
    ensures IsValidIPv4(WildcardFromMask(maskInt))
    ensures IpToInt(WildcardFromMask(maskInt)) + ToUint32(maskInt) == TwoTo32 - 1
  {
    IntToIpRoundTrip(ToUint32(BitNot(maskInt)));
  }

  /** The wildcard of prefix p covers exactly the 32 - p host bits. */
  lemma WildcardValue(p: int)
    requires 0 <= p <= 32
    ensures ToUint32(BitNot(MaskInt(p))) == Pow2(32 - p) - 1
  {
    MaskValue(p);
  }

  // ---------------------------------------------------------------------
  // Network and broadcast.

  /** The number of addresses in a block with prefix p: `2 ** (32 - p)`. */
  function BlockSize(p: int): (n: nat)
    requires 0 <= p <= 32
  {
    Pow2(32 - p)
  }

  /** `(ipInt & maskInt) >>> 0`: the network address of ipInt's block. */
  function NetworkOf(ipInt: nat, p: int): (network: nat)
    ensures network < TwoTo32
  {
    ToUint32(BitAnd(ipInt, MaskInt(p)))
  }

  /** `(network | (~maskInt >>> 0)) >>> 0`: the last address of the block. */
  function BroadcastOf(network: nat, p: int): (broadcast: nat)
    ensures broadcast < TwoTo32
  {
    ToUint32(BitOr(network, ToUint32(BitNot(MaskInt(p)))))
  }

  /** The network address is the address rounded down to a multiple of the block
      size. */
  lemma NetworkValue(ipInt: nat, p: int)
    requires ipInt < TwoTo32 && 0 <= p <= 32
    ensures NetworkOf(ipInt, p) == ipInt - Low(ipInt, 32 - p)
  {
    var m := MaskInt(p);
    BitAndUint32(ipInt, m);
    MaskIsHighMask(p);
    Pow2Constants();
    AndHighMask(ipInt, 32, 32 - p);
  }

  /** Or-ing the wildcard into a network address gives the block's last address. */
  lemma BroadcastValue(network: nat, p: int)
    requires network < TwoTo32 && 0 <= p <= 32 && Low(network, 32 - p) == 0
    ensures BroadcastOf(network, p) == network + BlockSize(p) - 1
  {
    var k := 32 - p;
    var w := ToUint32(BitNot(MaskInt(p)));
    WildcardValue(p);
    assert w == Pow2(k) - 1;
    Pow2Monotone(k, 32);
    Pow2Constants();
    assert network < Pow2(32) && w < TwoTo32;
    BitOrUint32(network, w);
    OrLowMask(network, 32, k);
    assert BroadcastOf(network, p) == Or(network, Pow2(k) - 1, 32);
  }

  /** The block of an address: its network address is at most the address, its
      last address at least the address, and the two span the block size. */
  lemma BlockRelations(ipInt: nat, p: int)
    requires ipInt < TwoTo32 && 0 <= p <= 32
    ensures var network := NetworkOf(ipInt, p);
            var broadcast := BroadcastOf(network, p);
            network <= ipInt <= broadcast && broadcast - network + 1 == BlockSize(p)
            && Low(network, 32 - p) == 0 && broadcast < TwoTo32
  {
    var k := 32 - p;
    var network := NetworkOf(ipInt, p);
    NetworkValue(ipInt, p);
    LowBound(ipInt, k);
    assert network == ipInt - Low(ipInt, k) && network <= ipInt < network + Pow2(k);
    LowOfRoundDown(ipInt, k);
    assert Low(network, k) == 0;
    BroadcastValue(network, p);
    assert BroadcastOf(network, p) == network + Pow2(k) - 1;
  }

  /** Masking a network address again changes nothing. */
  lemma NetworkIdempotent(ipInt: nat, p: int)
    requires ipInt < TwoTo32 && 0 <= p <= 32
    ensures NetworkOf(NetworkOf(ipInt, p), p) == NetworkOf(ipInt, p)
  {
    BlockRelations(ipInt, p);
    NetworkValue(NetworkOf(ipInt, p), p);
  }

  /** Two addresses share a network address exactly when the second one lies
      between the network and the broadcast address of the first. */
  lemma SameBlock(ipInt: nat, other: nat, p: int)
    requires ipInt < TwoTo32 && other < TwoTo32 && 0 <= p <= 32
    ensures var network := NetworkOf(ipInt, p);
            NetworkOf(other, p) == network <==> network <= other <= BroadcastOf(network, p)
  {
    var k := 32 - p;
    var network, broadcast := NetworkOf(ipInt, p), BroadcastOf(NetworkOf(ipInt, p), p);
    BlockRelations(ipInt, p);
    assert broadcast == network + Pow2(k) - 1;
    NetworkValue(ipInt, p);
    assert network == ipInt - Low(ipInt, k);
    NetworkValue(other, p);
    assert NetworkOf(other, p) == other - Low(other, k);
    SameRoundDown(ipInt, other, k);
  }

  // ---------------------------------------------------------------------
  // The block summary.

  datatype Error = InvalidAddress | InvalidPrefix

  datatype Result<T> = Success(value: T) | Failure(error: Error)

  /** The prefix argument: a JavaScript number, which may be NaN. */
  datatype PrefixArg = NotANumber | Number(value: int)

  /** The placeholder for fields a /31 or /32 block does not have. */
  const NA: string := "N/A"

  /** The summary computeNetworkInfo returns. The prefix and the address are kept
      as fields; the source recovers them by splitting `input` on '/'. */
  datatype NetworkInfo = NetworkInfo(
    input: string, network: string, broadcast: string,
    firstHost: string, lastHost: string, totalAddresses: nat, usableHosts: nat,
    netmask: string, wildcard: string, cidr: string,
    prefix: nat, address: string)

  /** The host range of a block: up to /30 the addresses between the network
      and the broadcast address; a /31 or /32 reports none. */
  datatype HostRange = NoHosts | HostRange(first: nat, last: nat)

  /** The numbers behind a summary: the network and broadcast addresses, the mask
      and wildcard, the host range, the total and the usable address counts. */
  datatype Layout = Layout(
    network: nat, broadcast: nat, mask: nat, wildcard: nat,
    hosts: HostRange, total: nat, usable: nat)

  /** The usable host count: total - 2 up to /30, then 2 for a /31 (point to
      point) and 1 for a /32 (a single host). */
  function UsableHosts(p: int): nat
    requires 0 <= p <= 32
  {
    if p <= 30 then
      Pow2Monotone(2, 32 - p);
      BlockSize(p) - 2
    else if p == 31 then 2
    else 1
  }

  /** Up to /30 the network and broadcast addresses are not usable; on a /31 or
      /32 every address of the block is. */
  lemma UsableTable(p: int)
    requires 0 <= p <= 32
    ensures p <= 30 ==> UsableHosts(p) == BlockSize(p) - 2 >= 2
    ensures p > 30 ==> UsableHosts(p) == BlockSize(p)
  {
    if p <= 30 {
      Pow2Monotone(2, 32 - p);
    } else if p == 31 {
      assert Pow2(1) == 2;
    }
  }

  /** `(start + 1) >>> 0` and `(end - 1) >>> 0` up to /30, no host range beyond. */
  function HostRangeOf(p: int, start: nat, end: nat): HostRange
  {
    if p <= 30 then HostRange(ToUint32(start + 1), ToUint32(end - 1)) else NoHosts
  }

  /** The block numbers as computeNetworkInfo computes them with 32-bit operations. */
  function ComputedLayout(ipInt: nat, p: int): Layout
    requires 0 <= p <= 32
  {
    var maskInt := MaskInt(p);
    var network := NetworkOf(ipInt, p);
    var broadcast := BroadcastOf(network, p);
    Layout(network, broadcast, maskInt, ToUint32(BitNot(maskInt)),
           HostRangeOf(p, network, broadcast), BlockSize(p), UsableHosts(p))
  }

  /** A block holds between 1 and 2^32 addresses, and at least 4 up to /30. */
  lemma SizeBounds(p: int)
    requires 0 <= p <= 32
    ensures 1 <= BlockSize(p) <= TwoTo32
    ensures p <= 30 ==> BlockSize(p) >= 4
  {
    Pow2Monotone(32 - p, 32);
    Pow2Constants();
    if p <= 30 {
      Pow2Monotone(2, 32 - p);
    }
  }

  /** The block numbers in plain arithmetic: the block of 2^(32 - p) addresses
      that starts at a multiple of its size and holds ipInt. Up to /30 the hosts
      are the block without its two ends; on /31 and /32 every address is usable. */
  function BlockLayout(ipInt: nat, p: int): Layout
    requires 0 <= p <= 32
  {
    var size := BlockSize(p);
    SizeBounds(p);
    var net := RoundDown(ipInt, size);
    if p <= 30 then
      Layout(net, net + size - 1, TwoTo32 - size, size - 1, HostRange(net + 1, net + size - 2), size, size - 2)
    else
      Layout(net, net + size - 1, TwoTo32 - size, size - 1, NoHosts, size, size)
  }

  /** The 32-bit computation yields the arithmetic block of every address. */
  lemma LayoutMatches(ipInt: nat, p: int)
    requires ipInt < TwoTo32 && 0 <= p <= 32
    ensures ComputedLayout(ipInt, p) == BlockLayout(ipInt, p)
  {
    var size := BlockSize(p);
    var network := NetworkOf(ipInt, p);
    BlockRelations(ipInt, p);
    NetworkRoundsDown(ipInt, p);
    assert network == RoundDown(ipInt, size);
    assert BroadcastOf(network, p) == network + size - 1;
    MaskValue(p);
    WildcardValue(p);
    UsableTable(p);
    assert HostRangeOf(p, network, network + size - 1) == BlockLayout(ipInt, p).hosts;
  }

  /** The block of an address holds the address, starts at a multiple of its
      size and does not run past 2^32 - 1. */
  lemma BlockHoldsAddress(ipInt: nat, p: int)
    requires ipInt < TwoTo32 && 0 <= p <= 32
    ensures var l := BlockLayout(ipInt, p);
            l.network <= ipInt <= l.broadcast < TwoTo32
            && l.network % l.total == 0 && l.broadcast - l.network + 1 == l.total
  {
    SizeBounds(p);
    LayoutMatches(ipInt, p);
    BlockRelations(ipInt, p);
  }

  /** Up to /30 the host range lies strictly inside the block and the usable
      count is its length; beyond /30 there is no range and every address is
      usable. */
  lemma BlockHosts(ipInt: nat, p: int)
    requires 0 <= p <= 32
    ensures var l := BlockLayout(ipInt, p);
            (l.hosts.HostRange? <==> p <= 30)
            && (l.hosts.HostRange? ==> l.network < l.hosts.first && l.hosts.last < l.broadcast
                                       && l.usable == l.hosts.last - l.hosts.first + 1)
            && (l.hosts.NoHosts? ==> l.usable == l.total)
  {
    SizeBounds(p);
  }

  /** Within a block, an address is in the host range (or the block has none)
      exactly when it is neither end of a block up to /30. */
  lemma HostsAreInterior(ipInt: nat, p: int, x: int)
    requires 0 <= p <= 32
    requires BlockLayout(ipInt, p).network <= x <= BlockLayout(ipInt, p).broadcast
    ensures var l := BlockLayout(ipInt, p);
            (l.hosts.NoHosts? || l.hosts.first <= x <= l.hosts.last)
            <==> (p >= 31 || (x != l.network && x != l.broadcast))
  {
    SizeBounds(p);
  }

  /** The prefix is accepted when it is a number from 0 to 32. */
  predicate PrefixInRange(prefix: PrefixArg)
  {
    prefix.Number? && 0 <= prefix.value <= 32
  }

  /** computeNetworkInfo: an invalid address is reported first, then a prefix
      that is NaN or outside [0, 32]; otherwise the summary of the address's block,
      which renders the arithmetic layout of that block. */
  function ComputeNetworkInfo(ipStr: string, prefix: PrefixArg): (r: Result<NetworkInfo>)
    ensures r.Failure? <==> !IsValidIPv4(ipStr) || !PrefixInRange(prefix)
    ensures r.Failure? ==> (r.error == InvalidAddress <==> !IsValidIPv4(ipStr))
    ensures r.Success? ==> r.value == Render(ipStr, prefix.value, ComputedLayout(IpToInt(ipStr), prefix.value))
    ensures r.Success? ==> WellFormedInfo(r.value) && r.value.address == ipStr && r.value.prefix == prefix.value
  {
    if !IsValidIPv4(ipStr) then Failure(InvalidAddress)
    else if prefix.NotANumber? || prefix.value < 0 || prefix.value > 32 then Failure(InvalidPrefix)
    else
      LayoutMatches(IpToInt(ipStr), prefix.value);
      Success(Render(ipStr, prefix.value, ComputedLayout(IpToInt(ipStr), prefix.value)))
  }

  /** intToIp of the first host, or N/A when there is no host range. */
  function FirstHostText(h: HostRange): string
  {
    if h.HostRange? then IntToIp(h.first) else NA
  }

  /** intToIp of the last host, or N/A when there is no host range. */
  function LastHostText(h: HostRange): string
  {
    if h.HostRange? then IntToIp(h.last) else NA
  }

  /** The summary's fields: `${ipStr}/${p}`, the addresses in dotted-decimal form,
      the broadcast address only up to /30, and the CIDR notation of the block. */
  function Render(ipStr: string, p: nat, l: Layout): NetworkInfo
  {
    NetworkInfo(
      ipStr + "/" + Decimal(p), IntToIp(l.network), if p <= 30 then IntToIp(l.broadcast) else NA,
      FirstHostText(l.hosts), LastHostText(l.hosts), l.total, l.usable,
      IntToIp(l.mask), IntToIp(l.wildcard), IntToIp(l.network) + "/" + Decimal(p),
      p, ipStr)
  }

  /** The network address is the address rounded down to a multiple of the
      block size. */
  lemma NetworkRoundsDown(ipInt: nat, p: int)
    requires ipInt < TwoTo32 && 0 <= p <= 32
    ensures NetworkOf(ipInt, p) == RoundDown(ipInt, BlockSize(p))
  {
    NetworkValue(ipInt, p);
    ShrLowDivMod(ipInt, 32 - p);
  }

  /** A summary of the block of a valid address: the rendering of the block's
      arithmetic layout. */
  predicate WellFormedInfo(info: NetworkInfo)
  {
    info.prefix <= 32 && IsValidIPv4(info.address)
    && info == Render(info.address, info.prefix, BlockLayout(IpToInt(info.address), info.prefix))
  }

  /** The mask and wildcard fields of a summary are what prefixToMask and
      wildcardFromMask give for its prefix. */
  lemma MaskFields(ipStr: string, prefix: PrefixArg)
    requires ComputeNetworkInfo(ipStr, prefix).Success?
    ensures var info := ComputeNetworkInfo(ipStr, prefix).value;
            info.netmask == PrefixToMask(prefix.value).maskStr
            && info.wildcard == WildcardFromMask(PrefixToMask(prefix.value).maskInt)
  {
  }

  /** The arithmetic layout a well-formed summary renders. */
  function InfoLayout(info: NetworkInfo): Layout
    requires info.prefix <= 32 && IsValidIPv4(info.address)
  {
    BlockLayout(IpToInt(info.address), info.prefix)
  }

  /** The placeholder is not an address: it has no '.' to split on. */
  lemma PlaceholderInvalid()
    ensures !IsValidIPv4(NA)
  {
    assert NA[0] == 'N' && NA[2] == 'A';
    WithoutDotInvalid(NA);
  }

  /** What the address list relies on: the network field of the summary reads
      back as its block's network, the address count is its block's size, and
      the broadcast field holds an address, reading back as the block's
      broadcast, exactly up to /30. */
  predicate ReadsBack(info: NetworkInfo)
  {
    info.prefix <= 32 && IsValidIPv4(info.address) && IsValidIPv4(info.network)
    && var l := InfoLayout(info);
    IpToInt(info.network) == l.network
    && info.totalAddresses == l.total && l.network + l.total <= TwoTo32
    && (info.broadcast != NA <==> info.prefix <= 30)
    && (info.prefix <= 30 ==> IsValidIPv4(info.broadcast) && IpToInt(info.broadcast) == l.broadcast)
  }

  /** A well-formed summary reads back as its block. */
  lemma InfoFields(info: NetworkInfo)
    requires WellFormedInfo(info)
    ensures ReadsBack(info)
  {
    var l := InfoLayout(info);
    BlockHoldsAddress(IpToInt(info.address), info.prefix);
    IntToIpRoundTrip(l.network);
    IntToIpRoundTrip(l.broadcast);
    PlaceholderInvalid();
  }
}
