/// The address list of a block: its first and last address, the role of each
/// address, the paged address table and the CSV export.
module Addresses {
  import opened Bits
  import opened Text
  import opened Address
  import opened Block

  // ---------------------------------------------------------------------
  // The ends of the block and the role of an address.

  /** addrStartInt: the network field read back as a number, which is the first
      address of the block. */
  function AddrStartInt(info: NetworkInfo): (n: nat)
    requires ReadsBack(info)
    ensures n == InfoLayout(info).network
  {
    IpToInt(info.network)
  }

  /** addrEndInt: the broadcast field read back when the summary reports one,
      otherwise `(net + size - 1) >>> 0`. Either way it is the last address of
      the block. */
  function AddrEndInt(info: NetworkInfo): (n: nat)
    requires ReadsBack(info)
    ensures n == InfoLayout(info).broadcast
    ensures n == AddrStartInt(info) + info.totalAddresses - 1
  {
    BlockHoldsAddress(IpToInt(info.address), info.prefix);
    if info.broadcast != NA then IpToInt(info.broadcast)
    else ToUint32(AddrStartInt(info) + BlockSize(info.prefix) - 1)
  }

  datatype Role = NetworkRole | BroadcastRole | HostRole

  /** The text of a role in the address table and the CSV export. */
  function RoleName(r: Role): string
  {
    match r
    case NetworkRole => "network"
    case BroadcastRole => "broadcast"
    case HostRole => "host"
  }

  /** addrRole: every address of a /31 or /32 is a host; otherwise the network
      and broadcast addresses are named and every other address is a host. */
  function AddrRole(ipInt: int, info: NetworkInfo): (r: Role)
    requires ReadsBack(info)
    ensures var l := InfoLayout(info);
            (r == NetworkRole <==> info.prefix <= 30 && ipInt == l.network)
            && (r == BroadcastRole <==> info.prefix <= 30 && ipInt == l.broadcast)
  {
    SizeBounds(info.prefix);
    BlockHoldsAddress(IpToInt(info.address), info.prefix);
    if info.prefix >= 31 then HostRole
    else if ipInt == AddrStartInt(info) then NetworkRole
    else if ipInt == IpToInt(info.broadcast) then BroadcastRole
    else HostRole
  }

  /** Within the block, the addresses with the host role are exactly the host
      range of the summary, or every address when the block has no host range. */
  lemma HostRoleIsHostRange(ipInt: nat, info: NetworkInfo)
    requires ReadsBack(info)
    requires AddrStartInt(info) <= ipInt <= AddrEndInt(info)
    ensures var h := InfoLayout(info).hosts;
            AddrRole(ipInt, info) == HostRole <==> h.NoHosts? || h.first <= ipInt <= h.last
  {
    HostsAreInterior(IpToInt(info.address), info.prefix, ipInt);
  }

  /** The numbers the address list reads from a summary: the prefix, the first
      address, the broadcast address when there is one, and the total. */
  datatype Listing = Listing(prefix: nat, start: nat, broadcast: nat, total: nat)

  /** The listing of a summary; its block lies below 2^32. */
  function ListingOf(info: NetworkInfo): (l: Listing)
    requires ReadsBack(info)
    ensures l.prefix == info.prefix && l.start == AddrStartInt(info) && l.total == info.totalAddresses
    ensures l.start + l.total <= TwoTo32
    ensures l.prefix <= 32 && l.total == BlockSize(l.prefix) && l.start % l.total == 0
  {
    BlockHoldsAddress(IpToInt(info.address), info.prefix);
    Listing(info.prefix, AddrStartInt(info),
            if info.prefix <= 30 then IpToInt(info.broadcast) else 0, info.totalAddresses)
  }

  /** addrRole on the numbers of a listing. */
  function RoleIn(ipInt: int, l: Listing): Role
  {
    if l.prefix >= 31 then HostRole
    else if ipInt == l.start then NetworkRole
    else if ipInt == l.broadcast then BroadcastRole
    else HostRole
  }

  /** The role computed on the listing is the role addrRole gives. */
  lemma AddrRoleIn(ipInt: int, info: NetworkInfo)
    requires ReadsBack(info)
    ensures AddrRole(ipInt, info) == RoleIn(ipInt, ListingOf(info))
  {
  }

  // ---------------------------------------------------------------------
  // The rows of the address list.

  /** One row of the address table and one record of the CSV export: the
      1-based index, the address and its role. */
  datatype AddressRow = AddressRow(index: nat, ip: string, role: string)

  /** The row with the given index for the address ipInt and its role. */
  function Row(index: nat, ipInt: nat, role: Role): AddressRow
  {
    AddressRow(index, IntToIp(ipInt), RoleName(role))
  }

  /** The address of a row reads back as the number it was made from. */
  lemma RowAddress(index: nat, ipInt: nat, role: Role)
    requires ipInt < TwoTo32
    ensures var r := Row(index, ipInt, role);
            r.index == index && IsValidIPv4(r.ip) && IpToInt(r.ip) == ipInt
  {
    IntToIpRoundTrip(ipInt);
  }

  // ---------------------------------------------------------------------
  // Paging.

  /** `1 << 16`: the largest block the address table lists. */
  const MaxForUI: nat := 65536

  /** `Math.ceil(a / b)` for a positive b. */
  function CeilDiv(a: nat, b: nat): (q: nat)
    requires b > 0
    ensures q * b >= a && (q == 0 || (q - 1) * b < a)
  {
    var q := (a + b - 1) / b;
    DivModUnique(a + b - 1, b, q, (a + b - 1) % b);
    q
  }

  /** `Math.min(Math.max(0, page), Math.max(0, totalPages - 1))`. */
  function ClampPage(page: int, totalPages: nat): (r: nat)
    ensures r == 0 || r < totalPages
    ensures 0 <= page < totalPages ==> r == page
    ensures page < 0 ==> r == 0
    ensures page >= totalPages ==> r == if totalPages == 0 then 0 else totalPages - 1
  {
    var low := if page < 0 then 0 else page;
    var high := if totalPages == 0 then 0 else totalPages - 1;
    if low < high then low else high
  }

  /** The global index of the first row of a page: `__addrPage * pageSize`. */
  function PageStart(page: nat, pageSize: nat): nat
  {
    page * pageSize
  }

  /** The number of rows on a page that starts at global index start:
      `Math.min(pageSize, total - start)`. */
  function PageRowCount(pageSize: nat, total: nat, start: nat): int
  {
    if pageSize < total - start then pageSize else total - start
  }

  /** A clamped page of a non-empty block starts inside the block and its rows
      stay inside it: at least one row and at most a page of them. */
  lemma PageInsideBlock(requested: int, pageSize: nat, total: nat)
    requires pageSize >= 1 && total >= 1
    ensures var page := ClampPage(requested, CeilDiv(total, pageSize));
            var start := PageStart(page, pageSize);
            var rows := PageRowCount(pageSize, total, start);
            start < total && 1 <= rows <= pageSize && start + rows <= total
  {
    var pages := CeilDiv(total, pageSize);
    var page := ClampPage(requested, pages);
    assert pages >= 1;
    assert page <= pages - 1;
    assert page * pageSize <= (pages - 1) * pageSize by {
      MulMonotone(page, pages - 1, pageSize);
    }
  }

  /** The line under the address table: empty at first, the range of rows shown,
      or the notice that the block is too large to list. */
  datatype PageNote = NoNote | Showing(from: nat, to: nat, total: nat) | TooLarge(total: nat)

  /** The text of the line: `Showing ${from}-${to} of ${total}` or
      `Block has ${total} addresses. Use CSV download for full list.` */
  function NoteText(n: PageNote): string
  {
    match n
    case NoNote => ""
    case Showing(from, to, total) =>
      "Showing " + Decimal(from) + "-" + Decimal(to) + " of " + Decimal(total)
    case TooLarge(total) =>
      "Block has " + Decimal(total) + " addresses. Use CSV download for full list."
  }

  /** The rows of a table page: row j holds the address `first + j` places after
      the start of the listing, numbered from 1, with its role. */
  predicate ListsRows(rows: seq<AddressRow>, l: Listing, first: nat)
  {
    forall j :: 0 <= j < |rows| ==>
      rows[j] == Row(first + j + 1, l.start + first + j, RoleIn(l.start + first + j, l))
  }

  /** The row loop of renderAddressesPage: count rows from global index first,
      each address computed as `(startIpInt + i) >>> 0`. */
  method PageRows(l: Listing, first: nat, count: nat) returns (listed: seq<AddressRow>)
    requires first + count <= l.total && l.start + l.total <= TwoTo32
    ensures |listed| == count && ListsRows(listed, l, first)
  {
    var startIpInt := ToUint32(l.start + first);
    listed := [];
    var i := 0;
    while i < count
      invariant 0 <= i <= count && |listed| == i
      invariant ListsRows(listed, l, first)
    {
      var ipInt := ToUint32(startIpInt + i);
      assert ipInt == l.start + first + i;
      listed := listed + [Row(first + i + 1, ipInt, RoleIn(ipInt, l))];
      i := i + 1;
    }
  }

  /** A listed row reads back as the address it names, inside the block. */
  lemma ListedRow(rows: seq<AddressRow>, l: Listing, first: nat, j: nat)
    requires ListsRows(rows, l, first) && j < |rows|
    requires first + |rows| <= l.total && l.start + l.total <= TwoTo32
    ensures rows[j].index == first + j + 1
    ensures IsValidIPv4(rows[j].ip) && l.start <= IpToInt(rows[j].ip) == l.start + first + j < l.start + l.total
  {
    var x := l.start + first + j;
    assert rows[j] == Row(first + j + 1, x, RoleIn(x, l));
    IntToIpRoundTrip(x);
  }

  /** What a shown page holds: the requested page clamped to the pages there
      are, the rows from its first global index on, and the range shown. */
  predicate ShowsPage(page: nat, rows: seq<AddressRow>, pageInfo: PageNote, l: Listing,
                      requested: int, pageSize: nat)
    requires pageSize >= 1
  {
    page == ClampPage(requested, CeilDiv(l.total, pageSize))
    && var first := PageStart(page, pageSize);
    |rows| == PageRowCount(pageSize, l.total, first)
    && ListsRows(rows, l, first)
    && pageInfo == Showing(first + 1, first + |rows|, l.total)
  }

  /** The address table: the page shown last (`__addrPage`), the rows of the
      table and the line under it, whose text is NoteText(pageInfo). */
  class AddressView {
    var page: nat
    var rows: seq<AddressRow>
    var pageInfo: PageNote

    constructor ()
      ensures page == 0 && rows == [] && pageInfo == NoNote
    {
      page := 0;
      rows := [];
      pageInfo := NoNote;
    }

    /** renderAddressesPage: a block of more than 65536 addresses is refused and
        the page is kept; otherwise the requested page is clamped to the pages
        there are and its rows are listed. */
    method RenderPage(info: NetworkInfo, requested: int, pageSize: nat)
      requires ReadsBack(info) && pageSize >= 1
      modifies this
      ensures info.totalAddresses > MaxForUI ==>
                page == old(page) && rows == [] && pageInfo == TooLarge(info.totalAddresses)
      ensures info.totalAddresses <= MaxForUI ==>
                ShowsPage(page, rows, pageInfo, ListingOf(info), requested, pageSize)
    {
      rows := [];
      var total := info.totalAddresses;
      var l := ListingOf(info);
      if total > MaxForUI {
        pageInfo := TooLarge(total);
        return;
      }
      SizeBounds(l.prefix);
      ShowPage(l, requested, pageSize);
    }

    /** The paging of renderAddressesPage on a block small enough to list: the
        requested page clamped to the pages there are, its rows and the line
        under them. */
    method ShowPage(l: Listing, requested: int, pageSize: nat)
      requires pageSize >= 1 && 1 <= l.total && l.start + l.total <= TwoTo32
      modifies this
      ensures ShowsPage(page, rows, pageInfo, l, requested, pageSize)
    {
      var total := l.total;
      var totalPages := CeilDiv(total, pageSize);
      page := ClampPage(requested, totalPages);
      var globalStartIndex := PageStart(page, pageSize);
      var count := PageRowCount(pageSize, total, globalStartIndex);
      PageInsideBlock(requested, pageSize, total);
      rows := PageRows(l, globalStartIndex, count);
      pageInfo := Showing(globalStartIndex + 1, globalStartIndex + count, total);
    }

    /** The previous-page button: renderAddressesPage(__addrPage - 1). */
    method PreviousPage(info: NetworkInfo, pageSize: nat)
      requires ReadsBack(info) && pageSize >= 1
      modifies this
      ensures info.totalAddresses <= MaxForUI ==>
                ShowsPage(page, rows, pageInfo, ListingOf(info), old(page) - 1, pageSize)
      ensures info.totalAddresses > MaxForUI ==>
                page == old(page) && rows == [] && pageInfo == TooLarge(info.totalAddresses)
    {
      RenderPage(info, page - 1, pageSize);
    }

    /** The next-page button: renderAddressesPage(__addrPage + 1). */
    method NextPage(info: NetworkInfo, pageSize: nat)
      requires ReadsBack(info) && pageSize >= 1
      modifies this
      ensures info.totalAddresses <= MaxForUI ==>
                ShowsPage(page, rows, pageInfo, ListingOf(info), old(page) + 1, pageSize)
      ensures info.totalAddresses > MaxForUI ==>
                page == old(page) && rows == [] && pageInfo == TooLarge(info.totalAddresses)
    {
      RenderPage(info, page + 1, pageSize);
    }

    /** A new page size: renderAddressesPage(0), which shows the first page again. */
    method PageSizeChanged(info: NetworkInfo, pageSize: nat)
      requires ReadsBack(info) && pageSize >= 1
      modifies this
      ensures info.totalAddresses <= MaxForUI ==>
                ShowsPage(page, rows, pageInfo, ListingOf(info), 0, pageSize) && page == 0
      ensures info.totalAddresses > MaxForUI ==>
                page == old(page) && rows == [] && pageInfo == TooLarge(info.totalAddresses)
    {
      RenderPage(info, 0, pageSize);
    }
  }

  // ---------------------------------------------------------------------
  // The CSV export.

  /** `1 << 17`: the most address records the export writes. */
  const MaxCsv: nat := 131072

  const CsvHeader: string := "index,ip,role"

  const CsvTruncated: string := "# Truncated at 131072 rows"

  /** One CSV record: `${i + 1},${ipStr},${role}`. */
  function CsvRecord(e: AddressRow): string
  {
    Decimal(e.index) + "," + e.ip + "," + e.role
  }

  /** No role name holds a comma. */
  lemma RoleNameAvoidsComma(r: Role)
    ensures ',' !in RoleName(r)
  {
  }

  /** A record of the export splits on ',' back into the index, the address and
      the role. */
  lemma CsvRecordFields(index: nat, ipInt: nat, role: Role)
    ensures var r := Row(index, ipInt, role);
            Split(CsvRecord(r), ',') == [Decimal(index), r.ip, r.role]
            && DigitsValue(Decimal(index)) == index
  {
    var r := Row(index, ipInt, role);
    var idx := Decimal(index);
    NonDigitAbsent(idx, ',');
    IntToIpAvoids(ipInt, ',');
    RoleNameAvoidsComma(role);
    JoinThree(idx, r.ip, r.role, ',');
    SplitJoin([idx, r.ip, r.role], ',');
  }

  /** The number of records: `Math.min(total, maxCSV)`. */
  function CsvLimit(total: nat): nat
  {
    if total < MaxCsv then total else MaxCsv
  }

  /** The record of the k-th address of a listing, counting from 1. */
  function AddressRecord(k: nat, l: Listing): string
    requires k >= 1
  {
    CsvRecord(Row(k, l.start + (k - 1), RoleIn(l.start + (k - 1), l)))
  }

  /** The records of the first n addresses of a listing. */
  function CsvRecords(l: Listing, n: nat): (records: seq<string>)
    ensures |records| == n
  {
    if n == 0 then [] else CsvRecords(l, n - 1) + [AddressRecord(n, l)]
  }

  /** The CSV export of a listing: the header, the records of the first
      min(total, 131072) addresses, and the truncation line when the block has
      more addresses than that. */
  function CsvExportOf(l: Listing): seq<string>
  {
    [CsvHeader] + CsvRecords(l, CsvLimit(l.total)) + (if l.total > MaxCsv then [CsvTruncated] else [])
  }

  /** The lines of the CSV download, each address computed as `(start + i) >>> 0`. */
  method CsvExport(l: Listing) returns (lines: seq<string>)
    requires l.start + l.total <= TwoTo32
    ensures lines == CsvExportOf(l)
  {
    lines := [CsvHeader];
    var lim := CsvLimit(l.total);
    var i := 0;
    while i < lim
      invariant 0 <= i <= lim
      invariant lines == [CsvHeader] + CsvRecords(l, i)
    {
      var ipInt := ToUint32(l.start + i);
      CsvRecordsStep(l, i);
      lines := lines + [CsvRecord(Row(i + 1, ipInt, RoleIn(ipInt, l)))];
      i := i + 1;
    }
    if l.total > MaxCsv {
      lines := lines + [CsvTruncated];
    }
  }

  /** One more record is the record of the next address. */
  lemma CsvRecordsStep(l: Listing, i: nat)
    requires l.start + i < TwoTo32
    ensures CsvRecords(l, i + 1)
            == CsvRecords(l, i) + [CsvRecord(Row(i + 1, ToUint32(l.start + i), RoleIn(ToUint32(l.start + i), l)))]
  {
    var x := ToUint32(l.start + i);
    assert x == l.start + i;
    assert AddressRecord(i + 1, l) == CsvRecord(Row(i + 1, x, RoleIn(x, l)));
  }

  /** The k-th record is the record of the k-th address. */
  lemma {:induction false} CsvRecordsAt(l: Listing, n: nat, k: nat)
    requires 1 <= k <= n
    ensures CsvRecords(l, n)[k - 1] == AddressRecord(k, l)
  {
    if k < n {
      CsvRecordsAt(l, n - 1, k);
    }
  }

  /** The export holds the header and then one record per listed address, in
      order. */
  lemma CsvExportRecords(l: Listing)
    ensures var lines := CsvExportOf(l);
            var lim := CsvLimit(l.total);
            |lines| == 1 + lim + (if l.total > MaxCsv then 1 else 0)
            && lines[0] == CsvHeader
            && (forall k :: 1 <= k <= lim ==> lines[k] == AddressRecord(k, l))
  {
    var lines := CsvExportOf(l);
    var lim := CsvLimit(l.total);
    forall k | 1 <= k <= lim
      ensures lines[k] == AddressRecord(k, l)
    {
      CsvRecordsAt(l, lim, k);
    }
  }

  /** The export ends with the truncation line exactly when the block has more
      than 131072 addresses. */
  lemma CsvExportTruncated(l: Listing)
    ensures var lines := CsvExportOf(l);
            l.total > MaxCsv <==> lines[|lines| - 1] == CsvTruncated
  {
    var lim := CsvLimit(l.total);
    var lines := CsvExportOf(l);
    var front := [CsvHeader] + CsvRecords(l, lim);
    if l.total > MaxCsv {
      assert lines == front + [CsvTruncated];
      assert lines[|lines| - 1] == CsvTruncated;
    } else {
      assert lines == front;
      if lim > 0 {
        assert lines[|lines| - 1] == CsvRecords(l, lim)[lim - 1];
        CsvRecordsAt(l, lim, lim);
        RecordIsNotTruncation(lim, l.start + (lim - 1), RoleIn(l.start + (lim - 1), l));
      } else {
        assert lines[|lines| - 1] == CsvHeader;
        assert CsvHeader[0] != CsvTruncated[0];
      }
    }
  }

  /** The CSV download of a summary: the export of its listing. */
  method CsvLines(info: NetworkInfo) returns (lines: seq<string>)
    requires ReadsBack(info)
    ensures lines == CsvExportOf(ListingOf(info))
  {
    lines := CsvExport(ListingOf(info));
  }

  /** No record of the export reads as the truncation line: a record starts
      with a digit. */
  lemma RecordIsNotTruncation(index: nat, ipInt: nat, role: Role)
    ensures CsvRecord(Row(index, ipInt, role)) != CsvTruncated
  {
    var idx := Decimal(index);
    assert CsvRecord(Row(index, ipInt, role))[0] == idx[0];
  }
}
