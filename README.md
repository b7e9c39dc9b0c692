# IPv4 CIDR calculator — a verified model

This project models the engine of the CIDR calculator in
`cidr-calculator/js/functions.js`. The engine does the prefix and mask
arithmetic of CIDR notation (section 3.1 of RFC 4632):

- it checks dotted-decimal syntax (`isValidIPv4`);
- it converts between dotted-decimal strings and 32-bit integers (`ipToInt`, `intToIp`);
- it builds the mask and wildcard of a prefix length (`prefixToMask`, `wildcardFromMask`);
- it summarises the block of an address (`computeNetworkInfo`);
- it cuts a block into subnets of a longer prefix (the row loop of `renderSubnets`);
- it lists the addresses of a block, one page at a time (`addrStartInt`, `addrEndInt`, `addrRole`, `renderAddressesPage`) or as a CSV download;
- it writes the address, mask, wildcard and network as 32 binary digits, each digit tagged as a network or a host bit (`toBinary32`, `renderBits`).

The model is written in terms of JavaScript's own operations, so the
32-bit behaviour is part of the model:

- `>>> 0` is `ToUint32`;
- `<<` converts its operand with `ToInt32` and shifts by the count modulo 32;
- `~`, `&` and `|` work on 32-bit two's complement values.

The results are then proved equal to plain arithmetic. For example, the 32-bit
`network` and `broadcast` of a block are the address rounded down to a multiple
of 2^(32 - p), and that value plus 2^(32 - p) - 1. `String.prototype.trim`,
`split`, `join`, `Number` on digit strings, `toString(2)`, `padStart` and
`parseInt(…, 2)` are modelled in `Text`.

Modules, one per file:

| module | file | contents |
|---|---|---|
| `Bits` | bits.dfy | powers of two, `Shr`/`Low` (bits above and below a position), the JavaScript 32-bit conversions and operators, bitwise AND/OR by recursion over the width |
| `Text` | text.dfy | JavaScript whitespace and `trim`, `split`/`join` on one character, decimal and binary digits, `padStart` |
| `Address` | address.dfy | `isValidIPv4`, `ipToInt`, `intToIp` and their round trips |
| `Block` | block.dfy | `prefixToMask`, `wildcardFromMask`, `computeNetworkInfo` and the block arithmetic behind it |
| `Addresses` | addresses.dfy | `addrStartInt`, `addrEndInt`, `addrRole`, the paged address table (a class holding `__addrPage`, the rows and the page line) and the CSV export loop |
| `Subnets` | subnets.dfy | the subnet row loop and the target-prefix check of `renderSubnets` |
| `BitView` | bitview.dfy | `toBinary32`, the octets read back from the digits, the net/host tagging loop and the rows of `renderBits` |

The code that changes state step by step is modelled with methods:

- the row loops of the subnet list, the address page, the CSV export and the bit view;
- the page kept in `__addrPage`.

Each method is proved against a function on values, and the lemmas are stated
about those functions. The pure helpers of the source are functions.

## Model

| member | source | states |
|---|---|---|
| Bits.ToUint32 | cidr-calculator/js/functions.js:12 | `x >>> 0` lies in [0, 2^32) and leaves a value already in that range unchanged |
| Bits.ToInt32 | cidr-calculator/js/functions.js:12 | the signed 32-bit conversion that `<<` applies lies in [-2^31, 2^31), keeps the low 32 bits of its operand, and leaves small non-negative values unchanged |
| Bits.ShiftLeft8 | cidr-calculator/js/functions.js:12 | `(acc << 8) + x` has the same low 32 bits as `(acc >>> 0) * 256 + x`, whatever `acc` is |
| Bits.AllOnesShifted | cidr-calculator/js/functions.js:21 | `(0xFFFFFFFF << c) >>> 0` is 2^32 - 2^c for every count c below 32 |
| Bits.AllOnesShifted32 | cidr-calculator/js/functions.js:21 | a shift count of 32 shifts by 0, so `(0xFFFFFFFF << 32) >>> 0` is 0xFFFFFFFF |
| Bits.BitNot | cidr-calculator/js/functions.js:26 | `(~a) >>> 0` is 2^32 - 1 - (a >>> 0), the 32-bit complement |
| Bits.BitAndUint32 | cidr-calculator/js/functions.js:41 | on unsigned 32-bit operands, `(a & b) >>> 0` is the bit-by-bit AND over 32 bits |
| Bits.BitOrUint32 | cidr-calculator/js/functions.js:42 | on unsigned 32-bit operands, `(a \| b) >>> 0` is the bit-by-bit OR over 32 bits |
| Bits.AndBit | cidr-calculator/js/functions.js:41 | bit j of an AND is the product of bit j of the two operands |
| Bits.OrBit | cidr-calculator/js/functions.js:42 | bit j of an OR is 1 exactly when bit j of one of the operands is 1 |
| Bits.AndHighMask | cidr-calculator/js/functions.js:41 | AND with the mask of the top bits above position k clears exactly the k low bits |
| Bits.OrLowMask | cidr-calculator/js/functions.js:42 | OR with 2^k - 1 sets exactly the k low bits: x minus its low bits plus 2^k - 1 |
| Text.Trim | cidr-calculator/js/functions.js:2 | the result of `trim()` neither starts nor ends with JavaScript whitespace |
| Text.TrimDecompose | cidr-calculator/js/functions.js:2 | every string is whitespace, then its trimmed form, then whitespace |
| Text.TrimPadded | cidr-calculator/js/functions.js:2 | trimming a trimmed string padded with whitespace on both sides gives back that string |
| Text.JoinSplit | cidr-calculator/js/functions.js:2 | joining the pieces of `split(sep)` with sep gives back the string, and no piece contains sep |
| Text.SplitJoin | cidr-calculator/js/functions.js:16 | splitting the join of pieces that do not contain sep gives back the pieces |
| Text.Decimal | cidr-calculator/js/functions.js:16 | a number written in decimal has no leading zeros and reads back as the number |
| Text.DecimalOfCanonical | cidr-calculator/js/functions.js:16 | a digit string without leading zeros is the decimal form of its own value |
| Text.Binary | cidr-calculator/js/functions.js:320 | `toString(2)` writes the bits of n, most significant first, with no leading zeros |
| Text.PadStart | cidr-calculator/js/functions.js:320 | `padStart` leaves a long enough string alone; otherwise it prefixes the pad character up to the width and keeps the string at the end |
| Text.BinaryValueOfBits | cidr-calculator/js/functions.js:355 | `parseInt(…, 2)` of a run of the bits of n reads back the bits of n in that range |
| Address.IsValidIPv4 | cidr-calculator/js/functions.js:1-9 | the definition of isValidIPv4: the trimmed address splits on '.' into exactly four segments, each one or more ASCII digits of value at most 255; it has no ensures, and Address.Octets, Address.WithoutDotInvalid and Address.FormattedIsValid state its consequences |
| Address.Octets | cidr-calculator/js/functions.js:1-9 | a string isValidIPv4 accepts has four segments after trimming, each a digit string of value at most 255 |
| Address.ValidSegments | cidr-calculator/js/functions.js:2 | the untrimmed address also splits into four segments; trimming them gives the segments of the trimmed address |
| Address.WithoutDotInvalid | cidr-calculator/js/functions.js:2-3 | a trimmed string without a '.' is one segment, so isValidIPv4 rejects it |
| Address.FormattedIsValid | cidr-calculator/js/functions.js:1-9 | four decimal octets of value at most 255 joined with '.' pass isValidIPv4 and split back into themselves |
| Address.SegmentOctets | cidr-calculator/js/functions.js:12 | on a valid address, every segment of the untrimmed `ip.split('.')` is a number to `Number`, and the numbers are the address's octets |
| Address.ReduceNumbers | cidr-calculator/js/functions.js:12 | the definition of the reduce `(acc << 8) + Number(oct)` from segment i on, with the JavaScript `<<`; it has no ensures, and Address.ReduceLow relates it to the unbounded fold |
| Address.IpToInt | cidr-calculator/js/functions.js:11-13 | ipToInt of a valid address is an unsigned 32-bit value |
| Address.ReduceLow | cidr-calculator/js/functions.js:12 | while the octets shifted in so far fit in 32 bits, the reduce `(acc << 8) + n` agrees in its low 32 bits with the fold on unbounded integers |
| Address.IpToIntValue | cidr-calculator/js/functions.js:11-13 | ipToInt is the value a·2^24 + b·2^16 + c·2^8 + d of the four octets a.b.c.d; the overflow of `<<` on the last octet is undone by `>>> 0` |
| Address.Octet | cidr-calculator/js/functions.js:16 | `(num >>> shift) & 255` is the 8 bits of `num >>> 0` starting at the shift |
| Address.IntToIp | cidr-calculator/js/functions.js:15-17 | the definition of intToIp: the octets `(num >>> shift) & 255` for the shifts 24, 16, 8 and 0, in decimal, joined with '.'; it has no ensures, and Address.IntToIpValid, Address.IntToIpRoundTrip and Address.ParseFormat state its properties |
| Address.IntToIpParts | cidr-calculator/js/functions.js:15-17 | intToIp is the four octets from the top, in decimal, joined with '.' |
| Address.IntToIpValid | cidr-calculator/js/functions.js:15-17 | what intToIp writes passes isValidIPv4 and needs no trimming |
| Address.IntToIpAvoids | cidr-calculator/js/functions.js:15-17 | what intToIp writes holds only digits and dots |
| Address.OctetsRecompose | cidr-calculator/js/functions.js:16 | the four octets taken at shifts 24, 16, 8 and 0 put back together give the 32-bit value |
| Address.DottedOctets | cidr-calculator/js/functions.js:16 | taking the octets of the value of four octets gives back those octets |
| Address.IntToIpRoundTrip | cidr-calculator/js/functions.js:11-17 | ipToInt(intToIp(n)) == n >>> 0 for every integer n |
| Address.ParseFormat | cidr-calculator/js/functions.js:11-17 | intToIp(ipToInt(s)) of a valid s is s trimmed, with leading zeros dropped from each octet |
| Address.ParseFormatCanonical | cidr-calculator/js/functions.js:11-17 | a valid address without surrounding whitespace or leading zeros comes back unchanged from intToIp(ipToInt(s)) |
| Block.PrefixToMask | cidr-calculator/js/functions.js:19-23 | prefixToMask returns a mask value below 2^32 together with its dotted form |
| Block.MaskInt | cidr-calculator/js/functions.js:21 | the mask value is an unsigned 32-bit value for every prefix |
| Block.MaskValue | cidr-calculator/js/functions.js:19-23 | the mask of prefix p is 2^32 - 2^(32 - p) |
| Block.MaskIsHighMask | cidr-calculator/js/functions.js:21 | the mask of prefix p has exactly its top p bits set |
| Block.MaskBits | cidr-calculator/js/functions.js:21 | bit j of the mask is 1 exactly when j >= 32 - p |
| Block.MaskEnds | cidr-calculator/js/functions.js:21 | prefix 0 gives mask 0 and prefix 32 gives 0xFFFFFFFF |
| Block.ZeroPrefixShift | cidr-calculator/js/functions.js:21 | without the `p === 0` case the shift by 32 would give 0xFFFFFFFF instead of 0 |
| Block.MaskMonotone | cidr-calculator/js/functions.js:19-23 | for p1 <= p2, `(mask(p1) & mask(p2)) >>> 0` is mask(p1) |
| Block.WildcardFromMask | cidr-calculator/js/functions.js:25-28 | the definition of wildcardFromMask: intToIp of `(~maskInt) >>> 0`; it has no ensures, and Block.WildcardComplement states its meaning |
| Block.WildcardValue | cidr-calculator/js/functions.js:26 | the wildcard of prefix p is 2^(32 - p) - 1 |
| Block.WildcardComplement | cidr-calculator/js/functions.js:25-28 | wildcardFromMask writes a valid address whose value plus the mask is 2^32 - 1 |
| Block.NetworkOf | cidr-calculator/js/functions.js:41 | `(ipInt & maskInt) >>> 0` is an unsigned 32-bit value; Block.NetworkValue gives its value |
| Block.BroadcastOf | cidr-calculator/js/functions.js:42 | `(network \| (~maskInt >>> 0)) >>> 0` is an unsigned 32-bit value; Block.BroadcastValue gives its value |
| Block.NetworkValue | cidr-calculator/js/functions.js:41 | `(ipInt & maskInt) >>> 0` is the address with its 32 - p low bits cleared |
| Block.NetworkRoundsDown | cidr-calculator/js/functions.js:41-43 | the network address is the address rounded down to a multiple of the block size 2^(32 - p) |
| Block.BroadcastValue | cidr-calculator/js/functions.js:42 | the broadcast of an aligned network address is the network plus the block size minus 1 |
| Block.BlockRelations | cidr-calculator/js/functions.js:39-43 | network <= ip <= broadcast < 2^32, broadcast - network + 1 is the total 2^(32 - p), and the network is aligned |
| Block.NetworkIdempotent | cidr-calculator/js/functions.js:41 | masking the network address again gives the network address |
| Block.SameBlock | cidr-calculator/js/functions.js:41-42 | another address has the same network address exactly when it lies between the network and the broadcast address |
| Block.SizeBounds | cidr-calculator/js/functions.js:43 | a block holds between 1 and 2^32 addresses, and at least 4 up to /30 |
| Block.UsableTable | cidr-calculator/js/functions.js:45-62 | up to /30 the usable count is total - 2 (at least 2); /31 gives 2 and /32 gives 1, the whole block |
| Block.LayoutMatches | cidr-calculator/js/functions.js:39-62 | the 32-bit computation gives exactly the arithmetic block: its network, broadcast, mask, wildcard, host range and counts |
| Block.BlockHoldsAddress | cidr-calculator/js/functions.js:39-43 | the block holds the address, starts at a multiple of its size, spans the total and ends below 2^32 |
| Block.BlockHosts | cidr-calculator/js/functions.js:50-62 | a host range exists exactly up to /30; it lies strictly between network and broadcast and its length is the usable count; otherwise every address is usable |
| Block.HostsAreInterior | cidr-calculator/js/functions.js:50-62 | an address of the block is in the host range exactly when the prefix is 31 or 32, or the address is neither the network nor the broadcast address |
| Block.ComputeNetworkInfo | cidr-calculator/js/functions.js:30-75 | fails exactly when the address is invalid or the prefix is NaN or outside [0, 32]; the address error takes precedence; otherwise the summary keeps the address and prefix and renders the arithmetic block of the address (network, broadcast, host range, counts, mask and wildcard) |
| Block.Render | cidr-calculator/js/functions.js:64-75 | the definition of the returned record: `input`, the dotted network, the broadcast only up to /30, the host range or N/A, the counts, netmask, wildcard and `cidr`; it has no ensures, and Block.ComputeNetworkInfo and Block.InfoFields state what its fields hold |
| Block.MaskFields | cidr-calculator/js/functions.js:72-73 | the netmask and wildcard fields are what prefixToMask and wildcardFromMask give for the prefix |
| Block.PlaceholderInvalid | cidr-calculator/js/functions.js:46-61 | the "N/A" placeholder is not a valid address, so it cannot be mistaken for one |
| Block.InfoFields | cidr-calculator/js/functions.js:64-75 | the network and broadcast fields of a summary read back through ipToInt as its block's numbers, and the broadcast field holds an address exactly up to /30 |
| Addresses.AddrStartInt | cidr-calculator/js/functions.js:225 | addrStartInt is the network address of the block |
| Addresses.AddrEndInt | cidr-calculator/js/functions.js:226-233 | addrEndInt is the last address of the block, from the broadcast field or the size alike, and equals start + total - 1 |
| Addresses.AddrRole | cidr-calculator/js/functions.js:234-242 | the role is 'network' exactly for the network address up to /30, 'broadcast' exactly for the broadcast address up to /30, 'host' otherwise |
| Addresses.HostRoleIsHostRange | cidr-calculator/js/functions.js:234-242 | inside the block, 'host' is given exactly to the addresses in the summary's host range, or to all of them on /31 and /32 |
| Addresses.ListingOf | cidr-calculator/js/functions.js:252-254 | the listing starts at an aligned address, holds 2^(32 - p) addresses and does not run past 2^32 |
| Addresses.AddrRoleIn | cidr-calculator/js/functions.js:234-242 | the role computed from the listing's numbers equals addrRole on the summary |
| Addresses.RowAddress | cidr-calculator/js/functions.js:270-276 | a table row's address text reads back as its address |
| Addresses.CeilDiv | cidr-calculator/js/functions.js:263 | `Math.ceil(total / pageSize)` is the least count of pages that holds all addresses |
| Addresses.ClampPage | cidr-calculator/js/functions.js:264 | the clamped page is in [0, max(0, totalPages - 1)]; an existing page is kept, below 0 gives 0, past the end gives the last page |
| Addresses.PageInsideBlock | cidr-calculator/js/functions.js:263-268 | the clamped page of a non-empty block starts inside it and shows between 1 and pageSize rows, all inside the block |
| Addresses.PageRows | cidr-calculator/js/functions.js:269-278 | the row loop lists count rows; row j is numbered first + j + 1 and holds the address first + j places after the start, with its role |
| Addresses.ListedRow | cidr-calculator/js/functions.js:269-278 | every listed row reads back as an address of the block, at its index |
| Addresses.AddressView.constructor | cidr-calculator/js/functions.js:223 | the page starts at 0, with no rows and no page line |
| Addresses.AddressView.RenderPage | cidr-calculator/js/functions.js:243-281 | a block of more than 65536 addresses gets the too-large line, no rows and an unchanged page; otherwise the requested page is clamped, its rows are listed and the line says `Showing from-to of total` |
| Addresses.AddressView.ShowPage | cidr-calculator/js/functions.js:263-281 | the paging of a listable block: the page is clamped, its rows are listed, and the line gives the first and last row shown |
| Addresses.AddressView.PreviousPage | cidr-calculator/js/functions.js:283-286 | the table shows the previous page, clamped, with its rows and page line; a block too large to list keeps its page and gets the too-large line and no rows |
| Addresses.AddressView.NextPage | cidr-calculator/js/functions.js:287-290 | the table shows the next page, clamped, with its rows and page line; a block too large to list keeps its page and gets the too-large line and no rows |
| Addresses.AddressView.PageSizeChanged | cidr-calculator/js/functions.js:291-294 | a new page size shows page 0 again, with its rows and page line; a block too large to list keeps its page and gets the too-large line and no rows |
| Addresses.CsvRecordFields | cidr-calculator/js/functions.js:308 | a CSV record splits on ',' into exactly the index, the address and the role |
| Addresses.CsvExport | cidr-calculator/js/functions.js:300-310 | the CSV loop builds exactly the export of the listing: header, records, then the truncation line if any |
| Addresses.CsvLines | cidr-calculator/js/functions.js:297-310 | the CSV download of a summary is the export of its listing |
| Addresses.CsvRecordsAt | cidr-calculator/js/functions.js:305-309 | the k-th record is `k,ip,role` for the k-th address of the block |
| Addresses.CsvExportRecords | cidr-calculator/js/functions.js:302-310 | the export has the header `index,ip,role`, then one record for each of the first min(total, 131072) addresses in order, and one more line when truncated |
| Addresses.CsvExportTruncated | cidr-calculator/js/functions.js:310 | the export ends with the truncation line exactly when the block has more than 131072 addresses |
| Addresses.RecordIsNotTruncation | cidr-calculator/js/functions.js:308-310 | no address record can be mistaken for the truncation line |
| Subnets.SubnetsTile | cidr-calculator/js/functions.js:187-188 | 2^(t - b) subnets of size 2^(32 - t) make up exactly the parent block |
| Subnets.SubnetInside | cidr-calculator/js/functions.js:192-194 | each subnet in the count ends inside the parent block |
| Subnets.SubnetAligned | cidr-calculator/js/functions.js:193 | each subnet starts at a multiple of its own size |
| Subnets.SubnetRowsAt | cidr-calculator/js/functions.js:192-215 | row i describes the subnet from base + i·2^(32 - t) to that plus 2^(32 - t) - 1, so consecutive rows are adjacent and do not overlap |
| Subnets.SubnetRowIsBlock | cidr-calculator/js/functions.js:195-206 | a subnet row carries the same host range and usable count as the block summary of its start address |
| Subnets.SubnetRowsDescribeBlocks | cidr-calculator/js/functions.js:192-215 | every listed row is a block of the target prefix inside the parent block, with its network address, host range and usable count |
| Subnets.SubnetList | cidr-calculator/js/functions.js:186-215 | the row loop lists the first min(2^(t - b), 1024) subnets; the `>>> 0` on start and end never wraps |
| Subnets.RenderSubnets | cidr-calculator/js/functions.js:180-218 | a target that is NaN, shorter than the block's prefix or longer than 32 gives the range note and no rows; otherwise the subnet rows, with the `Showing first 1024 of n` note exactly when there are more than 1024 |
| BitView.ToBinary32 | cidr-calculator/js/functions.js:319-321 | toBinary32 always writes exactly 32 digits |
| BitView.ToBinary32Bits | cidr-calculator/js/functions.js:319-321 | toBinary32 writes 32 digits; digit i is bit 31 - i of `num >>> 0` |
| BitView.ToBinary32RoundTrip | cidr-calculator/js/functions.js:319-321 | the 32 digits read back in base 2 as `num >>> 0` |
| BitView.SliceIsOctet | cidr-calculator/js/functions.js:355 | the 8 digits from position s read back as the octet of intToIp at shift 24 - s |
| BitView.BitOctetsMatch | cidr-calculator/js/functions.js:353-356 | the octets read back from the digits, joined with '.', are intToIp of the value |
| BitView.MaskDigits | cidr-calculator/js/functions.js:335 | the mask row's digits are p ones followed by zeros |
| BitView.WildcardDigits | cidr-calculator/js/functions.js:331-336 | the wildcard row's digits are p zeros followed by ones |
| BitView.NetworkBit | cidr-calculator/js/functions.js:41 | bit j of the network address is bit j of the address for the top p bits and 0 below |
| BitView.NetworkDigits | cidr-calculator/js/functions.js:334-337 | the network row repeats the address row's first p digits and then has zeros |
| BitView.TagBits | cidr-calculator/js/functions.js:347-352 | the cell loop tags digit i as a network bit exactly when i < p, and shows digit i |
| BitView.MaskRowTags | cidr-calculator/js/functions.js:347-350 | on the mask row the network cells are exactly the digits 1 |
| BitView.RowOctetsAgree | cidr-calculator/js/functions.js:353-356 | the octets read back from a row's digits always equal its dotted-decimal text |
| BitView.BitRows | cidr-calculator/js/functions.js:339-361 | the row loop builds one row per entry, in order, each the row of that entry's value |
| BitView.BitEntriesMask | cidr-calculator/js/functions.js:327-338 | the entries hold the address, the mask of the prefix, and a wildcard that with the mask adds up to 2^32 - 1 |
| BitView.InfoNetwork | cidr-calculator/js/functions.js:330 | the network read back from the summary is the masked address |
| BitView.RenderBits | cidr-calculator/js/functions.js:322-361 | renderBits builds the four rows IP, Mask, Wildcard and Network of the summary |

## Left out

- DOM rendering, `alert`, the event listeners and the clipboard, Blob and download plumbing (cidr-calculator/js/functions.js:78-167, 311-315). `renderResults` and `toText` only lay the summary's fields out as text. The methods return or store the rows and notes as data. `NoteText`, `SubnetNoteText`, `SubnetCells` and `CsvRecord` give their text.
- `window.__lastCIDRInfo` and the "calculate first" hints are not modelled. The summary is passed to each view explicitly.
- Non-integer prefixes are not modelled. A prefix is NaN or an integer (`PrefixArg`). `Number(…)` on the input text, which can also give a fraction such as 24.5, is not modelled.
- The prefix is not re-parsed from `info.input.split('/')`. It is kept as a field of the summary, and so is the address. `input` is still rendered as `${ipStr}/${p}`.
- Address.IpToInt: defined only on addresses that pass isValidIPv4. Every call in the source receives one. computeNetworkInfo validates its `ipStr` first. renderBits reads back the address part of `input`, which is that validated `ipStr`. The other calls read back the network and broadcast fields, which intToIp wrote (Block.InfoFields).
- Addresses.AddressView.RenderPage: requires a page size of at least 1. The source reads it from a select of positive sizes. A page size of 0 or NaN is not modelled.
- Addresses.AddressView.PreviousPage, Addresses.AddressView.NextPage, Addresses.AddressView.PageSizeChanged: require the same positive page size as RenderPage.
- Addresses.AddrRole, Addresses.AddrEndInt, Subnets.RenderSubnets: require a summary that reads back as its block (`ReadsBack`). Block.InfoFields proves this holds for every summary computeNetworkInfo returns.
- BitView.RenderBits: requires the address and network fields to be valid addresses, which every computed summary has.
- The `>>> 0` on the network, broadcast, host, subnet and row addresses is modelled. It is proved never to wrap on the inputs the source passes.
- `toString(2)` and `parseInt(…, 2)` are modelled only on non-negative integers and digit strings, which is all the bit view passes them.
- The other files of the repository are not part of this model. They are the PERT calculator's floating-point arithmetic and file I/O, the regex-based issue formatter, the canvas background animation, the GIF generator script and the patch viewer's page wiring.
