/// The bit view: the address, mask, wildcard and network of a block written
/// as 32 binary digits, each digit tagged as a network or a host bit, with the
/// octets read back from the digits.
module BitView {
  import opened Bits
  import opened Text
  import opened Address
  import opened Block

  // ---------------------------------------------------------------------
  // toBinary32 and the octets read back from it.

  /** toBinary32: `(num >>> 0).toString(2).padStart(32, '0')`. */
  function ToBinary32(num: int): (bin: string)
    ensures |bin| == 32
  {
    BinaryWidth(ToUint32(num));
    PadStart(Binary(ToUint32(num)), 32, '0')
  }

  /** A 32-bit value has at most 32 binary digits. */
  lemma BinaryWidth(n: nat)
    requires n < TwoTo32
    ensures |Binary(n)| <= 32
  {
    var s := Binary(n);
    Pow2Constants();
    if 32 < |s| {
      Pow2Monotone(32, |s| - 1);
    }
  }

  /** toBinary32 writes 32 digits, the most significant bit first: digit i is
      bit 31 - i of `num >>> 0`. */
  lemma ToBinary32Bits(num: int)
    ensures var s := ToBinary32(num);
            |s| == 32 && forall i :: 0 <= i < 32 ==> s[i] == BinaryChar(Bit(ToUint32(num), 31 - i))
  {
    var n := ToUint32(num);
    assert ToBinary32(num) == PadStart(Binary(n), 32, '0');
    PaddedBinary(n);
  }

  /** The binary digits of a 32-bit value padded to 32 places with '0'. */
  lemma PaddedBinary(n: nat)
    requires n < TwoTo32
    ensures var s := PadStart(Binary(n), 32, '0');
            |s| == 32 && forall i :: 0 <= i < 32 ==> s[i] == BinaryChar(Bit(n, 31 - i))
  {
    var b := Binary(n);
    var s := PadStart(b, 32, '0');
    BinaryWidth(n);
    assert s[32 - |b|..] == b;
    PaddedBits(s, b, n);
  }

  /** Binary digits of n padded with '0' to 32 places: digit i is bit 31 - i. */
  lemma PaddedBits(s: string, b: string, n: nat)
    requires |b| <= 32 && |s| == 32 && s[32 - |b|..] == b
    requires forall i :: 0 <= i < 32 - |b| ==> s[i] == '0'
    requires n < Pow2(|b|)
    requires forall i :: 0 <= i < |b| ==> b[i] == BinaryChar(Bit(n, |b| - 1 - i))
    ensures forall i :: 0 <= i < 32 ==> s[i] == BinaryChar(Bit(n, 31 - i))
  {
    var k := 32 - |b|;
    forall i | 0 <= i < 32
      ensures s[i] == BinaryChar(Bit(n, 31 - i))
    {
      if i < k {
        BitAboveWidth(n, |b|, 31 - i);
      } else {
        var j := i - k;
        assert s[i] == s[k..][j];
      }
    }
  }

  /** `parseInt(toBinary32(num), 2)` gives back `num >>> 0`. */
  lemma ToBinary32RoundTrip(num: int)
    ensures AllBinary(ToBinary32(num)) && BinaryValue(ToBinary32(num)) == ToUint32(num)
  {
    var n := ToUint32(num);
    ToBinary32Bits(num);
    BinaryValueOfBits(ToBinary32(num), n, 0);
    Pow2Constants();
    LowOfSmall(n, 32);
  }

  /** The starts of the four 8-digit slices. */
  const SliceStarts: seq<nat> := [0, 8, 16, 24]

  /** `parseInt(bin.slice(s, s + 8), 2)` for each start s, in decimal. */
  function SliceTexts(bin: string, starts: seq<nat>): (texts: seq<string>)
    requires AllBinary(bin) && forall k :: 0 <= k < |starts| ==> starts[k] + 8 <= |bin|
    ensures |texts| == |starts|
  {
    if |starts| == 0 then []
    else
      var slice := bin[starts[0]..starts[0] + 8];
      assert AllBinary(slice);
      [Decimal(BinaryValue(slice))] + SliceTexts(bin, starts[1..])
  }

  /** The octets line of the bit view: the four slices' values joined with '.'.
      Its input is always a toBinary32 string. */
  function BitOctets(bin: string): string
    requires |bin| == 32 && AllBinary(bin)
  {
    Join(SliceTexts(bin, SliceStarts), '.')
  }

  /** The octets line as its four pieces. */
  lemma BitOctetsParts(bin: string)
    requires |bin| == 32 && AllBinary(bin)
    ensures BitOctets(bin)
            == Join([Decimal(BinaryValue(bin[0..8])), Decimal(BinaryValue(bin[8..16])),
                     Decimal(BinaryValue(bin[16..24])), Decimal(BinaryValue(bin[24..32]))], '.')
  {
    assert SliceStarts[1..] == [8, 16, 24] && SliceStarts[1..][1..] == [16, 24]
           && SliceStarts[1..][1..][1..] == [24];
    assert SliceTexts(bin, [24]) == [Decimal(BinaryValue(bin[24..32]))];
    assert SliceTexts(bin, [16, 24]) == [Decimal(BinaryValue(bin[16..24])), Decimal(BinaryValue(bin[24..32]))];
    assert SliceTexts(bin, [8, 16, 24])
           == [Decimal(BinaryValue(bin[8..16])), Decimal(BinaryValue(bin[16..24])), Decimal(BinaryValue(bin[24..32]))];
  }

  /** The 8 digits from s of a string holding bits 31 down to 0 of n, most
      significant first, read back as the octet of n at shift 24 - s. */
  lemma SliceBits(bin: string, n: nat, s: nat)
    requires |bin| == 32 && s <= 24
    requires forall i :: 0 <= i < 32 ==> bin[i] == BinaryChar(Bit(n, 31 - i))
    ensures AllBinary(bin[s..s + 8]) && BinaryValue(bin[s..s + 8]) == Low(Shr(n, 24 - s), 8)
  {
    var slice := bin[s..s + 8];
    assert forall i :: 0 <= i < |slice| ==> slice[i] == BinaryChar(Bit(n, (24 - s) + |slice| - 1 - i));
    BinaryValueOfBits(slice, n, 24 - s);
  }

  /** The slice of toBinary32 starting at s holds the octet intToIp shifts out
      by 24 - s. */
  lemma SliceIsOctet(num: int, s: nat, slice: string)
    requires s <= 24 && slice == ToBinary32(num)[s..s + 8]
    ensures AllBinary(slice) && BinaryValue(slice) == Octet(num, 24 - s)
  {
    ToBinary32Bits(num);
    SliceBits(ToBinary32(num), ToUint32(num), s);
    ModOfSmall(24 - s, 32);
  }

  /** The octets read back from the digits are the dotted-decimal form of the
      value. */
  lemma BitOctetsMatch(num: int)
    ensures AllBinary(ToBinary32(num)) && |ToBinary32(num)| == 32
    ensures BitOctets(ToBinary32(num)) == IntToIp(num)
  {
    var bin := ToBinary32(num);
    ToBinary32RoundTrip(num);
    SliceIsOctet(num, 0, bin[0..8]);
    SliceIsOctet(num, 8, bin[8..16]);
    SliceIsOctet(num, 16, bin[16..24]);
    SliceIsOctet(num, 24, bin[24..32]);
    BitOctetsParts(bin);
    IntToIpParts(num);
  }

  // ---------------------------------------------------------------------
  // The digits of the mask, the wildcard and the network address.

  /** The first p digits of the mask are 1 and the rest 0. */
  lemma MaskDigits(p: int)
    requires 0 <= p <= 32
    ensures var bin := ToBinary32(MaskInt(p));
            |bin| == 32 && forall i :: 0 <= i < 32 ==> bin[i] == if i < p then '1' else '0'
  {
    ToBinary32Bits(MaskInt(p));
    forall j | 0 <= j < 32
      ensures Bit(MaskInt(p), j) == if j >= 32 - p then 1 else 0
    {
      MaskBits(p, j);
    }
  }

  /** The wildcard's digits are the mask's flipped: 0 for the first p, then 1. */
  lemma WildcardDigits(p: int)
    requires 0 <= p <= 32
    ensures var bin := ToBinary32(ToUint32(BitNot(MaskInt(p))));
            |bin| == 32 && forall i :: 0 <= i < 32 ==> bin[i] == if i < p then '0' else '1'
  {
    var m := MaskInt(p);
    var w := ToUint32(BitNot(m));
    ToBinary32Bits(w);
    Pow2Constants();
    assert w == Pow2(32) - 1 - m;
    forall j | 0 <= j < 32
      ensures Bit(w, j) == if j >= 32 - p then 0 else 1
    {
      MaskBits(p, j);
      ComplementBit(m, 32, j);
    }
  }

  /** A bit of the network address is the address's bit among the top p bits
      and 0 below them. */
  lemma NetworkBit(ipInt: nat, p: int, j: nat)
    requires ipInt < TwoTo32 && 0 <= p <= 32 && j < 32
    ensures Bit(NetworkOf(ipInt, p), j) == if j >= 32 - p then Bit(ipInt, j) else 0
  {
    var k := 32 - p;
    var h := HighMask(32, k);
    var net := NetworkOf(ipInt, p);
    Pow2Constants();
    NetworkValue(ipInt, p);
    assert net == ipInt - Low(ipInt, k);
    AndHighMask(ipInt, 32, k);
    assert net == And(ipInt, h, 32);
    AndBit(ipInt, h, 32, j);
    HighMaskBit(32, k, j);
  }

  /** The network address has the address's first p digits and 0 after them. */
  lemma NetworkDigits(ipInt: nat, p: int)
    requires ipInt < TwoTo32 && 0 <= p <= 32
    ensures var bin := ToBinary32(NetworkOf(ipInt, p));
            var ip := ToBinary32(ipInt);
            |bin| == 32 && |ip| == 32
            && forall i :: 0 <= i < 32 ==> bin[i] == if i < p then ip[i] else '0'
  {
    ToBinary32Bits(NetworkOf(ipInt, p));
    ToBinary32Bits(ipInt);
    forall j | 0 <= j < 32
      ensures Bit(NetworkOf(ipInt, p), j) == if j >= 32 - p then Bit(ipInt, j) else 0
    {
      NetworkBit(ipInt, p, j);
    }
  }

  // ---------------------------------------------------------------------
  // The rows of the bit view.

  /** One digit cell: tagged `net` or `host`, showing the digit. */
  datatype BitCell = BitCell(net: bool, digit: char)

  /** The cells of a row: digit i is a network digit exactly when i < p. */
  function Tagged(bin: string, p: int): (cells: seq<BitCell>)
    ensures |cells| == |bin|
  {
    seq(|bin|, i requires 0 <= i < |bin| => BitCell(i < p, bin[i]))
  }

  /** The cell loop of renderBits: `'bit ' + (i < p ? 'net' : 'host')` with the
      text `bin[i]`. */
  method TagBits(bin: string, p: int) returns (cells: seq<BitCell>)
    requires |bin| == 32
    ensures cells == Tagged(bin, p)
  {
    cells := [];
    for i := 0 to 32
      invariant |cells| == i
      invariant forall j :: 0 <= j < i ==> cells[j] == BitCell(j < p, bin[j])
    {
      cells := cells + [BitCell(i < p, bin[i])];
    }
  }

  /** On the mask row the network cells are exactly the 1 digits. */
  lemma MaskRowTags(p: int)
    requires 0 <= p <= 32
    ensures var cells := Tagged(ToBinary32(MaskInt(p)), p);
            |cells| == 32 && forall i :: 0 <= i < 32 ==> (cells[i].net <==> cells[i].digit == '1')
  {
    MaskDigits(p);
  }

  /** One row of the bit view: the label, the tagged digits, the dotted-decimal
      form and the octets read back from the digits. Its text is
      `${dec}  (${octets})` after the digits. */
  datatype BitRow = BitRow(name: string, cells: seq<BitCell>, dec: string, octets: string)

  /** The row of a value. */
  function BitRowOf(name: string, value: nat, p: int): BitRow
  {
    var bin := ToBinary32(value);
    BitOctetsMatch(value);
    BitRow(name, Tagged(bin, p), IntToIp(value), BitOctets(bin))
  }

  /** The octets read back from a row's digits always agree with its
      dotted-decimal form. */
  lemma RowOctetsAgree(name: string, value: nat, p: int)
    ensures BitRowOf(name, value, p).octets == BitRowOf(name, value, p).dec
  {
    BitOctetsMatch(value);
  }

  /** The row loop of renderBits over its (name, value) entries. */
  method BitRows(entries: seq<(string, nat)>, p: int) returns (rows: seq<BitRow>)
    ensures |rows| == |entries|
    ensures forall k :: 0 <= k < |entries| ==> rows[k] == BitRowOf(entries[k].0, entries[k].1, p)
  {
    rows := [];
    for k := 0 to |entries|
      invariant |rows| == k
      invariant forall j :: 0 <= j < k ==> rows[j] == BitRowOf(entries[j].0, entries[j].1, p)
    {
      var (name, value) := entries[k];
      var bin := ToBinary32(value);
      BitOctetsMatch(value);
      var cells := TagBits(bin, p);
      var octets := BitOctets(bin);
      rows := rows + [BitRow(name, cells, IntToIp(value), octets)];
    }
  }

  /** What renderBits reads from a summary: its prefix and two addresses that
      ipToInt can read. */
  predicate BitsReadable(info: NetworkInfo)
  {
    info.prefix <= 32 && IsValidIPv4(info.address) && IsValidIPv4(info.network)
  }

  /** The `bits` entries of renderBits: the address, the mask, the wildcard
      `(~maskInt) >>> 0` and the network address read back from the summary. */
  function BitEntries(info: NetworkInfo): (entries: seq<(string, nat)>)
    requires BitsReadable(info)
    ensures |entries| == 4
  {
    var p := info.prefix;
    var maskInt := PrefixToMask(p).maskInt;
    [("IP", IpToInt(info.address)), ("Mask", maskInt),
     ("Wildcard", ToUint32(BitNot(maskInt))), ("Network", IpToInt(info.network))]
  }

  /** The entries hold the address, its mask and the mask's complement. */
  lemma BitEntriesMask(info: NetworkInfo)
    requires BitsReadable(info)
    ensures var e := BitEntries(info);
            e[0].1 == IpToInt(info.address) && e[1].1 == MaskInt(info.prefix)
            && e[1].1 + e[2].1 == TwoTo32 - 1
  {
  }

  /** The network address read back from a summary is the masked address. */
  lemma InfoNetwork(info: NetworkInfo)
    requires ReadsBack(info)
    ensures BitsReadable(info)
    ensures IpToInt(info.network) == NetworkOf(IpToInt(info.address), info.prefix)
  {
    LayoutMatches(IpToInt(info.address), info.prefix);
  }

  /** renderBits: one row for each of the four entries. */
  method RenderBits(info: NetworkInfo) returns (rows: seq<BitRow>)
    requires BitsReadable(info)
    ensures |rows| == 4
    ensures forall k :: 0 <= k < 4 ==> rows[k] == BitRowOf(BitEntries(info)[k].0, BitEntries(info)[k].1, info.prefix)
  {
    var bits := BitEntries(info);
    rows := BitRows(bits, info.prefix);
  }
}
