/// The subnet list: the parent block cut into blocks of a longer target prefix,
/// at most 1024 of them listed.
module Subnets {
  import opened Bits
  import opened Text
  import opened Address
  import opened Block
  import opened Addresses

  /** The most subnets the list shows. */
  const MaxRows: nat := 1024

  /** One row of the subnet table: the first address and prefix of the subnet,
      its host range and its usable host count. The cells of the row are
      SubnetCells of it. */
  datatype SubnetRow = SubnetRow(start: nat, prefix: nat, hosts: HostRange, usable: nat)

  /** The cells of a row: `${intToIp(start)}/${p}`, the first and last host (or
      N/A) and the usable count. */
  function SubnetCells(r: SubnetRow): seq<string>
  {
    [IntToIp(r.start) + "/" + Decimal(r.prefix), FirstHostText(r.hosts), LastHostText(r.hosts),
     Decimal(r.usable)]
  }

  /** The line under the subnet table: empty, the range error, or the notice that
      only the first rows are shown. */
  datatype SubnetNote = NoSubnetNote | TargetOutOfRange(base: nat) | ShowingFirst(shown: nat, count: nat)

  /** The text of the line under the subnet table. */
  function SubnetNoteText(n: SubnetNote): string
  {
    match n
    case NoSubnetNote => ""
    case TargetOutOfRange(base) =>
      "Target prefix must be between " + Decimal(base) + " and 32."
    case ShowingFirst(shown, count) =>
      "Showing first " + Decimal(shown) + " of " + Decimal(count)
      + " subnets. Increase target prefix to narrow results."
  }

  /** The row of the subnet from start to end with prefix p: the hosts between
      the ends up to /30, and the usable count of the prefix. */
  function SubnetRowOf(start: nat, end: nat, p: nat): SubnetRow
    requires p <= 32
  {
    SubnetRow(start, p, HostRangeOf(p, start, end), UsableHosts(p))
  }

  /** The first address of the i-th subnet of prefix t from net on. */
  function SubnetStart(net: nat, t: nat, i: nat): nat
    requires t <= 32
  {
    net + i * BlockSize(t)
  }

  /** The rows of the first n subnets of prefix t from net on. */
  function SubnetRows(net: nat, t: nat, n: nat): (rows: seq<SubnetRow>)
    requires t <= 32
    ensures |rows| == n
  {
    if n == 0 then []
    else
      var start := SubnetStart(net, t, n - 1);
      SubnetRows(net, t, n - 1) + [SubnetRowOf(start, start + BlockSize(t) - 1, t)]
  }

  /** The number of subnets of prefix t in a block of prefix b: 2^(t - b). */
  function SubnetCount(b: nat, t: nat): nat
    requires b <= t
  {
    Pow2(t - b)
  }

  /** The blocks of prefix t tile a block of prefix b: there are 2^(t - b) of
      them, and all of them together hold as many addresses as the parent. */
  lemma SubnetsTile(b: nat, t: nat)
    requires b <= t <= 32
    ensures SubnetCount(b, t) * BlockSize(t) == BlockSize(b)
  {
    Pow2Add(t - b, 32 - t);
  }

  /** The i-th subnet lies inside the parent block. */
  lemma SubnetInside(b: nat, t: nat, i: nat)
    requires b <= t <= 32 && i < SubnetCount(b, t)
    ensures i * BlockSize(t) + BlockSize(t) <= BlockSize(b)
  {
    SubnetsTile(b, t);
    MulMonotone(i + 1, SubnetCount(b, t), BlockSize(t));
    assert (i + 1) * BlockSize(t) == i * BlockSize(t) + BlockSize(t);
  }

  /** Every subnet of an aligned parent starts at a multiple of its own size. */
  lemma SubnetAligned(net: nat, b: nat, t: nat, i: nat)
    requires b <= t <= 32 && net % BlockSize(b) == 0
    ensures SubnetStart(net, t, i) % BlockSize(t) == 0
  {
    SubnetsTile(b, t);
    MultipleOfPart(net, BlockSize(b), BlockSize(t), SubnetCount(b, t), i);
  }

  /** The i-th of n rows is the row of the i-th subnet. */
  lemma {:induction false} SubnetRowsAt(net: nat, t: nat, n: nat, i: nat)
    requires t <= 32 && i < n
    ensures var start := SubnetStart(net, t, i);
            SubnetRows(net, t, n)[i] == SubnetRowOf(start, start + BlockSize(t) - 1, t)
  {
    if i < n - 1 {
      SubnetRowsAt(net, t, n - 1, i);
    }
  }

  /** The row of an aligned block shows what the summary of that block shows:
      its network address, its host range and its usable count. */
  lemma SubnetRowIsBlock(start: nat, t: nat)
    requires t <= 32 && start % BlockSize(t) == 0 && start + BlockSize(t) <= TwoTo32
    ensures var l := BlockLayout(start, t);
            SubnetRowOf(start, start + BlockSize(t) - 1, t) == SubnetRow(l.network, t, l.hosts, l.usable)
  {
    SizeBounds(t);
    UsableTable(t);
    var l := BlockLayout(start, t);
    assert l.network == start;
    assert HostRangeOf(t, start, start + BlockSize(t) - 1) == l.hosts;
  }

  /** Each listed row of an aligned parent is the row of a block of prefix t that
      starts at a multiple of its size, follows the previous one and lies inside
      the parent. */
  lemma SubnetRowsDescribeBlocks(net: nat, b: nat, t: nat, n: nat, i: nat)
    requires b <= t <= 32 && net % BlockSize(b) == 0 && net + BlockSize(b) <= TwoTo32
    requires n <= SubnetCount(b, t) && i < n
    ensures var start := SubnetStart(net, t, i);
            var l := BlockLayout(start, t);
            net <= start && start + BlockSize(t) <= net + BlockSize(b)
            && start % BlockSize(t) == 0
            && SubnetRows(net, t, n)[i] == SubnetRow(l.network, t, l.hosts, l.usable)
  {
    var start, size := SubnetStart(net, t, i), BlockSize(t);
    SubnetInside(b, t, i);
    assert net <= start && start + size <= net + BlockSize(b);
    SubnetAligned(net, b, t, i);
    assert start % size == 0;
    SubnetRowsAt(net, t, n, i);
    SubnetRowIsBlock(start, t);
  }

  /** One more row is the row of the next subnet, computed with `>>> 0`. */
  lemma SubnetRowsStep(net: nat, t: nat, i: nat, start: nat, end: nat)
    requires t <= 32 && start == SubnetStart(net, t, i) && end == start + BlockSize(t) - 1
    ensures SubnetRows(net, t, i + 1) == SubnetRows(net, t, i) + [SubnetRowOf(start, end, t)]
  {
  }

  /** The number of rows shown for n subnets: `Math.min(subnetCount, maxRows)`. */
  function RowsToShow(n: nat): nat
  {
    if n < MaxRows then n else MaxRows
  }

  /** The row loop of renderSubnets: the first min(2^(t - b), 1024) subnets of
      prefix t of the block of prefix b at net, each start computed as
      `(baseNetInt + i * blockSize) >>> 0`. */
  method SubnetList(baseNetInt: nat, b: nat, t: nat) returns (rows: seq<SubnetRow>)
    requires b <= t <= 32 && baseNetInt + BlockSize(b) <= TwoTo32
    ensures rows == SubnetRows(baseNetInt, t, RowsToShow(SubnetCount(b, t)))
  {
    var blockSize := BlockSize(t);
    var rowsToShow := RowsToShow(SubnetCount(b, t));
    SizeBounds(t);
    rows := [];
    for i := 0 to rowsToShow
      invariant rows == SubnetRows(baseNetInt, t, i)
    {
      SubnetInside(b, t, i);
      var start := ToUint32(baseNetInt + i * blockSize);
      assert start == SubnetStart(baseNetInt, t, i);
      var end := ToUint32(start + blockSize - 1);
      assert end == start + blockSize - 1;
      var hosts, usable := NoHosts, 0;
      if t <= 30 {
        hosts := HostRange(ToUint32(start + 1), ToUint32(end - 1));
        usable := blockSize - 2;
      } else if t == 31 {
        usable := 2;
      } else {
        usable := 1;
      }
      SubnetRowsStep(baseNetInt, t, i, start, end);
      rows := rows + [SubnetRow(start, t, hosts, usable)];
    }
  }

  /** renderSubnets: a target prefix that is NaN, shorter than the block's or
      longer than 32 is refused; otherwise the first min(2^(t - b), 1024) subnets
      are listed, with a notice when there are more. */
  method RenderSubnets(info: NetworkInfo, target: PrefixArg)
    returns (rows: seq<SubnetRow>, note: SubnetNote)
    requires ReadsBack(info)
    ensures var b := info.prefix;
            !(target.Number? && b <= target.value <= 32) ==>
              rows == [] && note == TargetOutOfRange(b)
    ensures var b := info.prefix;
            target.Number? && b <= target.value <= 32 ==>
              var count := SubnetCount(b, target.value);
              rows == SubnetRows(AddrStartInt(info), target.value, RowsToShow(count))
              && (note == if count > MaxRows then ShowingFirst(MaxRows, count) else NoSubnetNote)
  {
    rows := [];
    note := NoSubnetNote;
    var basePrefix := info.prefix;
    if target.NotANumber? || target.value < basePrefix || target.value > 32 {
      note := TargetOutOfRange(basePrefix);
      return;
    }
    var t: nat := target.value;
    var l := ListingOf(info);
    var subnetCount := SubnetCount(basePrefix, t);
    rows := SubnetList(l.start, basePrefix, t);
    if subnetCount > MaxRows {
      note := ShowingFirst(MaxRows, subnetCount);
    }
  }
}
