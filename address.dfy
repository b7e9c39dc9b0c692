/// IPv4 addresses in dotted-decimal form: the syntax check, and the conversion
/// between dotted-decimal strings and 32-bit integers in both directions.
module Address {
  import opened Bits
  import opened Text

  // ---------------------------------------------------------------------
  // Address syntax and conversion.

  /** isValidIPv4: after trimming, the address splits on '.' into exactly four
      segments, each one or more ASCII digits with a value of at most 255.
      Leading zeros and surrounding whitespace are accepted. */
  predicate IsValidIPv4(ip: string)
  {
    var parts := Split(Trim(ip), '.');
    |parts| == 4 && forall i :: 0 <= i < 4 ==> IsDigits(parts[i]) && DigitsValue(parts[i]) <= 255
  }

  /** The four octet values of a valid address, most significant first. */
  function Octets(ip: string): (o: seq<nat>)
    requires IsValidIPv4(ip)
    ensures |o| == 4 && forall i :: 0 <= i < 4 ==> o[i] <= 255
  {
    var parts := Split(Trim(ip), '.');
    [DigitsValue(parts[0]), DigitsValue(parts[1]), DigitsValue(parts[2]), DigitsValue(parts[3])]
  }

  /** The 32-bit value of four octets. */
  function DottedValue(o: seq<nat>): nat
    requires |o| == 4
  {
    o[0] * 16777216 + o[1] * 65536 + o[2] * 256 + o[3]
  }

  /** Whitespace holds no '.'. */
  lemma WhitespaceHasNoDot(s: string)
    requires AllWhitespace(s)
    ensures '.' !in s
  {
  }

  /** Text without separators around a string with four pieces sticks to its
      first and its last piece. */
  lemma SplitPadded(lead: string, t: string, trail: string)
    requires '.' !in lead && '.' !in trail && |Split(t, '.')| == 4
    ensures var p := Split(t, '.');
            Split(lead + t + trail, '.') == [lead + p[0], p[1], p[2], p[3] + trail]
  {
    SplitPrepend(lead, t, '.');
    SplitAppend(lead + t, trail, '.');
  }

  /** Trimming the padded first and last pieces gives the pieces back. */
  lemma TrimPieces(raw: seq<string>, p: seq<string>, lead: string, trail: string)
    requires AllWhitespace(lead) && AllWhitespace(trail)
    requires |p| == 4 && forall i :: 0 <= i < 4 ==> Trimmed(p[i])
    requires raw == [lead + p[0], p[1], p[2], p[3] + trail]
    ensures Trim(raw[0]) == p[0] && Trim(raw[1]) == p[1]
    ensures Trim(raw[2]) == p[2] && Trim(raw[3]) == p[3]
  {
    TrimLeading(lead, p[0]);
    TrimTrimmed(p[1]);
    TrimTrimmed(p[2]);
    TrimTrailing(p[3], trail);
  }

  /** The segments of the untrimmed address trim to the segments of the trimmed
      one: the surrounding whitespace sticks to the first and the last segment. */
  lemma ValidSegments(ip: string)
    requires IsValidIPv4(ip)
    ensures var raw, parts := Split(ip, '.'), Split(Trim(ip), '.');
            |raw| == 4 && Trim(raw[0]) == parts[0] && Trim(raw[1]) == parts[1]
            && Trim(raw[2]) == parts[2] && Trim(raw[3]) == parts[3]
  {
    var p := Split(Trim(ip), '.');
    var raw := Split(ip, '.');
    assert forall i :: 0 <= i < 4 ==> Trimmed(p[i]) by {
      forall i | 0 <= i < 4
        ensures Trimmed(p[i])
      {
        DigitsTrimmed(p[i]);
      }
    }
    var lead, trail := TrimDecompose(ip);
    WhitespaceHasNoDot(lead);
    WhitespaceHasNoDot(trail);
    SplitPadded(lead, Trim(ip), trail);
    TrimPieces(raw, p, lead, trail);
  }

  /** Text without a dot and without surrounding whitespace is one segment, so
      it is not an address. */
  lemma WithoutDotInvalid(s: string)
    requires Trimmed(s) && '.' !in s
    ensures !IsValidIPv4(s)
  {
    TrimTrimmed(s);
    SplitWithoutSeparator(s, '.');
    assert Split(Trim(s), '.') == [s];
  }

  /** `Number(segment)` for a segment that is digits once trimmed. */
  function SegmentNumber(segment: string): nat
    requires IsDigits(Trim(segment))
  {
    DigitsValue(Trim(segment))
  }

  /** `Number(segment)` for each segment in turn. */
  function SegmentNumbers(segments: seq<string>): seq<nat>
    requires forall j :: 0 <= j < |segments| ==> IsDigits(Trim(segments[j]))
  {
    seq(|segments|, j requires 0 <= j < |segments| => SegmentNumber(segments[j]))
  }

  /** Each segment of a valid address, untrimmed, is digits once trimmed, and
      the segment numbers are the octets. */
  lemma SegmentOctets(ip: string)
    requires IsValidIPv4(ip)
    ensures var raw := Split(ip, '.');
            |raw| == 4 && forall j :: 0 <= j < 4 ==> IsDigits(Trim(raw[j]))
    ensures SegmentNumbers(Split(ip, '.')) == Octets(ip)
  {
    ValidSegments(ip);
    var parts := Split(Trim(ip), '.');
    assert IsDigits(parts[0]) && IsDigits(parts[1]) && IsDigits(parts[2]) && IsDigits(parts[3]);
    SegmentsTrimTo(Split(ip, '.'), parts, Octets(ip));
  }

  /** Segments that trim to digit strings have those strings' values as numbers. */
  lemma SegmentsTrimTo(s: seq<string>, parts: seq<string>, o: seq<nat>)
    requires |s| == 4 && |parts| == 4
    requires Trim(s[0]) == parts[0] && Trim(s[1]) == parts[1]
    requires Trim(s[2]) == parts[2] && Trim(s[3]) == parts[3]
    requires IsDigits(parts[0]) && IsDigits(parts[1]) && IsDigits(parts[2]) && IsDigits(parts[3])
    requires o == [DigitsValue(parts[0]), DigitsValue(parts[1]), DigitsValue(parts[2]), DigitsValue(parts[3])]
    ensures forall j :: 0 <= j < 4 ==> IsDigits(Trim(s[j]))
    ensures SegmentNumbers(s) == o
  {
    forall j | 0 <= j < 4
      ensures IsDigits(Trim(s[j]))
    {
      if j == 0 {
      } else if j == 1 {
      } else if j == 2 {
      } else {
      }
    }
    var n := SegmentNumbers(s);
    assert n[0] == o[0] && n[1] == o[1];
    assert n[2] == o[2] && n[3] == o[3];
  }

  /** The reduce in ipToInt from segment i on, over the segment numbers:
      `(acc << 8) + n` for each number in turn. */
  function ReduceNumbers(numbers: seq<nat>, i: nat, acc: int): int
    requires i <= |numbers|
    decreases |numbers| - i
  {
    if i == |numbers| then acc
    else ReduceNumbers(numbers, i + 1, ShiftLeft(acc, 8) + numbers[i])
  }

  /** ipToInt: the reduce over the segments of the (untrimmed) address, then `>>> 0`.
      Defined on valid addresses, which is all its callers pass. */
  function IpToInt(ip: string): (n: nat)
    requires IsValidIPv4(ip)
    ensures n < TwoTo32
  {
    SegmentOctets(ip);
    ToUint32(ReduceNumbers(SegmentNumbers(Split(ip, '.')), 0, 0))
  }

  /** The same fold on unbounded integers, over octet values: `v * 256 + o[i]`
      for each octet from i on. */
  function Horner(o: seq<nat>, i: nat, v: nat): nat
    requires i <= |o|
    decreases |o| - i
  {
    if i == |o| then v else Horner(o, i + 1, v * 256 + o[i])
  }

  /** How large the accumulator may be with r octets still to shift in, so that
      the result stays below 2^32. */
  function Room(r: nat): nat
  {
    if r == 0 then TwoTo32 else if r == 1 then 16777216 else if r == 2 then 65536
    else if r == 3 then 256 else 1
  }

  /** The reduce shifts in one number and goes on with the rest. */
  lemma ReduceStep(numbers: seq<nat>, i: nat, acc: int)
    requires i < |numbers|
    ensures ReduceNumbers(numbers, i, acc) == ReduceNumbers(numbers, i + 1, ShiftLeft(acc, 8) + numbers[i])
  {
  }

  /** One round of `(acc << 8) + octet` on an accumulator holding v in its low
      32 bits, when v has at most 24 bits. */
  lemma ShiftInOctet(acc: int, v: nat, x: nat)
    requires ToUint32(acc) == v && v < 16777216 && x <= 255
    ensures ToUint32(ShiftLeft(acc, 8) + x) == v * 256 + x
  {
    ShiftLeft8(acc, x);
    assert v * 256 + x < TwoTo32;
  }

  /** Shifting one more octet into a value that fits leaves a value that fits. */
  lemma RoomStep(i: nat, v: nat, x: nat)
    requires i < 4 && v < Room(4 - i) && x <= 255
    ensures v < 16777216 && v * 256 + x < Room(4 - (i + 1))
  {
    assert v <= Room(4 - i) - 1;
    MulMonotone(v, Room(4 - i) - 1, 256);
  }

  /** While the octets fit in 32 bits, the 32-bit reduce agrees with the
      unbounded fold: the wrap-around of `<<` never loses an octet. */
  lemma {:induction false} ReduceLow(o: seq<nat>, i: nat, acc: int, v: nat)
    requires |o| == 4 && i <= 4 && forall j :: 0 <= j < 4 ==> o[j] <= 255
    requires ToUint32(acc) == v && v < Room(4 - i)
    ensures ToUint32(ReduceNumbers(o, i, acc)) == Horner(o, i, v)
    decreases 4 - i
  {
    if i < 4 {
      var x := o[i];
      RoomStep(i, v, x);
      ShiftInOctet(acc, v, x);
      var acc', v' := ShiftLeft(acc, 8) + x, v * 256 + x;
      ReduceLow(o, i + 1, acc', v');
      ReduceStep(o, i, acc);
      assert Horner(o, i, v) == Horner(o, i + 1, v');
      assert ToUint32(ReduceNumbers(o, i + 1, acc')) == Horner(o, i + 1, v');
    } else {
      assert ReduceNumbers(o, i, acc) == acc && Horner(o, i, v) == v;
    }
  }

  /** The fold of four octets from 0 is their dotted value. */
  lemma HornerFour(o: seq<nat>)
    requires |o| == 4
    ensures Horner(o, 0, 0) == DottedValue(o)
  {
    assert Horner(o, 0, 0) == Horner(o, 2, o[0] * 256 + o[1]);
    assert Horner(o, 2, o[0] * 256 + o[1]) == Horner(o, 4, ((o[0] * 256 + o[1]) * 256 + o[2]) * 256 + o[3]);
  }

  /** ipToInt yields the 32-bit value of the four octets: the 32-bit wrap-around
      of `<<` on the last octet is undone by `>>> 0`. */
  lemma IpToIntValue(ip: string)
    requires IsValidIPv4(ip)
    ensures IpToInt(ip) == DottedValue(Octets(ip))
  {
    SegmentOctets(ip);
    var o := Octets(ip);
    ReduceLow(o, 0, 0, 0);
    HornerFour(o);
  }

  /** Masking with 255 keeps the low eight bits. */
  lemma OctetValue(num: int, shift: int)
    ensures var x := ShiftRightUnsigned(num, shift);
            BitAnd(x, 255) == Low(x, 8) && Low(x, 8) < 256
  {
    var u := ToUint32(num);
    var x := Shr(u, shift % 32);
    ShrAtMost(u, shift % 32);
    assert ToUint32(x) == x;
    Pow2Constants();
    AndLowMask(x, 32, 8);
    LowBound(x, 8);
    var l := And(x, 255, 32);
    assert l == Low(x, 8);
    assert ToInt32(l) == l;
  }

  /** `(num >>> shift) & 255`: one octet of intToIp. */
  function Octet(num: int, shift: int): (b: nat)
    ensures b < 256 && b == Low(ShiftRightUnsigned(num, shift), 8)
  {
    var x := ShiftRightUnsigned(num, shift);
    OctetValue(num, shift);
    BitAnd(x, 255)
  }

  /** The shifts intToIp maps over, from the top octet down. */
  const Shifts: seq<int> := [24, 16, 8, 0]

  /** `shifts.map(shift => (num >>> shift) & 255)`, each octet in decimal. */
  function OctetTexts(num: int, shifts: seq<int>): (texts: seq<string>)
    ensures |texts| == |shifts|
  {
    if |shifts| == 0 then [] else [Decimal(Octet(num, shifts[0]))] + OctetTexts(num, shifts[1..])
  }

  /** intToIp: the four octets from the top, in decimal, joined with '.'. */
  function IntToIp(num: int): string
  {
    Join(OctetTexts(num, Shifts), '.')
  }

  /** The four octet texts intToIp joins. */
  lemma IntToIpParts(num: int)
    ensures IntToIp(num) == Join([Decimal(Octet(num, 24)), Decimal(Octet(num, 16)), Decimal(Octet(num, 8)), Decimal(Octet(num, 0))], '.')
  {
    assert Shifts[1..] == [16, 8, 0] && Shifts[1..][1..] == [8, 0] && Shifts[1..][1..][1..] == [0];
    assert OctetTexts(num, [0]) == [Decimal(Octet(num, 0))];
    assert OctetTexts(num, [8, 0]) == [Decimal(Octet(num, 8)), Decimal(Octet(num, 0))];
    assert OctetTexts(num, [16, 8, 0]) == [Decimal(Octet(num, 16)), Decimal(Octet(num, 8)), Decimal(Octet(num, 0))];
  }

  /** intToIp always yields a valid address, with no whitespace around it. */
  lemma IntToIpValid(num: int)
    ensures IsValidIPv4(IntToIp(num)) && Trim(IntToIp(num)) == IntToIp(num)
  {
    IntToIpParts(num);
    FormattedIsValid([Decimal(Octet(num, 24)), Decimal(Octet(num, 16)), Decimal(Octet(num, 8)), Decimal(Octet(num, 0))]);
  }

  /** intToIp writes only digits and dots. */
  lemma IntToIpAvoids(num: int, c: char)
    requires !IsDigit(c) && c != '.'
    ensures c !in IntToIp(num)
  {
    var parts := [Decimal(Octet(num, 24)), Decimal(Octet(num, 16)), Decimal(Octet(num, 8)), Decimal(Octet(num, 0))];
    IntToIpParts(num);
    forall i | 0 <= i < 4
      ensures c !in parts[i]
    {
      NonDigitAbsent(parts[i], c);
    }
    JoinAvoids(parts, '.', c);
  }

  /** Four canonical decimals below 256 joined with '.' form a valid address,
      which is its own trimmed form. */
  lemma FormattedIsValid(parts: seq<string>)
    requires |parts| == 4
    requires forall i :: 0 <= i < 4 ==> Canonical(parts[i]) && DigitsValue(parts[i]) <= 255
    ensures Trim(Join(parts, '.')) == Join(parts, '.')
    ensures Split(Join(parts, '.'), '.') == parts
    ensures IsValidIPv4(Join(parts, '.'))
  {
    FormattedSplits(parts);
    FormattedTrimmed(parts);
  }

  /** Splitting digit strings joined with '.' gives them back. */
  lemma FormattedSplits(parts: seq<string>)
    requires |parts| == 4 && forall i :: 0 <= i < 4 ==> IsDigits(parts[i])
    ensures Split(Join(parts, '.'), '.') == parts
  {
    forall i | 0 <= i < 4
      ensures '.' !in parts[i]
    {
      assert AllDigits(parts[i]);
    }
    SplitJoin(parts, '.');
  }

  /** Digit strings joined with '.' have no whitespace at either end. */
  lemma FormattedTrimmed(parts: seq<string>)
    requires |parts| == 4 && forall i :: 0 <= i < 4 ==> IsDigits(parts[i])
    ensures Trim(Join(parts, '.')) == Join(parts, '.')
  {
    var s := Join(parts, '.');
    JoinEnds(parts, '.');
    assert IsDigit(parts[0][0]) && IsDigit(parts[3][|parts[3]| - 1]);
    DigitNotWhitespace(s[0]);
    DigitNotWhitespace(s[|s| - 1]);
    TrimTrimmed(s);
  }

  /** A value below 2^32 is the dotted value of its four octets. */
  lemma OctetsRecompose(n: nat)
    requires n < TwoTo32
    ensures DottedValue([Low(Shr(n, 24), 8), Low(Shr(n, 16), 8), Low(Shr(n, 8), 8), Low(n, 8)]) == n
  {
    Pow2Constants();
    ShrLow(n, 8);
    ShrShr(n, 8, 8);
    ShrLow(Shr(n, 8), 8);
    ShrShr(n, 16, 8);
    ShrLow(Shr(n, 16), 8);
    ShrBound(n, 24, 8);
    LowOfSmall(Shr(n, 24), 8);
    assert Shr(n, 0) == n;
  }

  /** The octets of a dotted value are the octets it was built from. */
  lemma DottedOctets(o: seq<nat>)
    requires |o| == 4 && forall i :: 0 <= i < 4 ==> o[i] <= 255
    ensures var n := DottedValue(o);
            Low(Shr(n, 24), 8) == o[0] && Low(Shr(n, 16), 8) == o[1]
            && Low(Shr(n, 8), 8) == o[2] && Low(n, 8) == o[3]
  {
    Pow2Constants();
    var n := DottedValue(o);
    var h2 := o[0] * 256 + o[1];
    var h3 := h2 * 256 + o[2];
    assert n == h3 * Pow2(8) + o[3];
    ShrLowOfSum(h3, o[3], 8);
    ShrLowOfSum(h2, o[2], 8);
    ShrLowOfSum(o[0], o[1], 8);
    ShrShr(n, 8, 8);
    ShrShr(n, 16, 8);
    LowOfSmall(o[0], 8);
  }

  /** For n below 2^32, the octets intToIp prints are the bytes of n. */
  lemma OctetsOfUint32(n: nat)
    requires n < TwoTo32
    ensures Octet(n, 24) == Low(Shr(n, 24), 8) && Octet(n, 16) == Low(Shr(n, 16), 8)
    ensures Octet(n, 8) == Low(Shr(n, 8), 8) && Octet(n, 0) == Low(n, 8)
  {
  }

  /** ipToInt(intToIp(n)) == n for every n below 2^32 (and, for any number,
      the unsigned 32-bit value `n >>> 0`). */
  lemma IntToIpRoundTrip(num: int)
    ensures IsValidIPv4(IntToIp(num)) && IpToInt(IntToIp(num)) == ToUint32(num)
  {
    var n := ToUint32(num);
    var s := IntToIp(num);
    var parts := [Decimal(Octet(num, 24)), Decimal(Octet(num, 16)), Decimal(Octet(num, 8)), Decimal(Octet(num, 0))];
    IntToIpParts(num);
    FormattedIsValid(parts);
    IpToIntValue(s);
    assert Octets(s) == [Octet(num, 24), Octet(num, 16), Octet(num, 8), Octet(num, 0)];
    OctetsOfUint32(n);
    OctetsRecompose(n);
  }

  /** The normal form of a valid address: its octet values in decimal without
      leading zeros, joined with '.', without surrounding whitespace. */
  function Normalized(ip: string): string
    requires IsValidIPv4(ip)
  {
    var o := Octets(ip);
    Join([Decimal(o[0]), Decimal(o[1]), Decimal(o[2]), Decimal(o[3])], '.')
  }

  /** intToIp(ipToInt(s)) is s normalized: whitespace trimmed and leading zeros
      dropped from each octet. */
  lemma ParseFormat(ip: string)
    requires IsValidIPv4(ip)
    ensures IntToIp(IpToInt(ip)) == Normalized(ip)
  {
    IpToIntValue(ip);
    var o := Octets(ip);
    var n := IpToInt(ip);
    IntToIpParts(n);
    DottedOctets(o);
    OctetsOfUint32(n);
  }

  /** An address already in normal form is reproduced exactly. */
  lemma ParseFormatCanonical(ip: string)
    requires IsValidIPv4(ip) && Trim(ip) == ip
    requires forall i :: 0 <= i < 4 ==> Canonical(Split(ip, '.')[i])
    ensures IntToIp(IpToInt(ip)) == ip
  {
    ParseFormat(ip);
    var parts := Split(ip, '.');
    var o := Octets(ip);
    assert o == [DigitsValue(parts[0]), DigitsValue(parts[1]), DigitsValue(parts[2]), DigitsValue(parts[3])];
    assert Canonical(parts[0]) && Canonical(parts[1]) && Canonical(parts[2]) && Canonical(parts[3]);
    CanonicalPieces(parts);
    JoinSplit(ip, '.');
  }

  /** Four canonical decimals are reproduced by reading and printing them. */
  lemma CanonicalPieces(parts: seq<string>)
    requires |parts| == 4 && Canonical(parts[0]) && Canonical(parts[1])
    requires Canonical(parts[2]) && Canonical(parts[3])
    ensures [Decimal(DigitsValue(parts[0])), Decimal(DigitsValue(parts[1])),
             Decimal(DigitsValue(parts[2])), Decimal(DigitsValue(parts[3]))] == parts
  {
    DecimalOfCanonical(parts[0]);
    DecimalOfCanonical(parts[1]);
    DecimalOfCanonical(parts[2]);
    DecimalOfCanonical(parts[3]);
  }
}
