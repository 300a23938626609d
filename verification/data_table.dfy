/** The record browser every page uses (`CustomDatatable`): free-text search,
    the month filter, newest-first paging, the page-size selector, the delete
    button label and the CSV export.

    `JSON.stringify` and the calendar comparison of the date library are not
    modelled: the browser is given `serialize` (the text a record is searched
    in) and `inCurrentMonth` (whether a creation date lies in the current
    month) as parameters. */
module DataTable {
  import opened Wrappers
  import opened Json
  import opened Utils
  import Seqs
  import Decimal

  /** `PAGE_SIZES`. */
  type PageSize = n: int | n == 10 || n == 15 || n == 20 witness 10

  /** Pages are numbered from 1. */
  type Page = p: int | p >= 1 witness 1

  const ALL_MONTHS := "All"

  /** The browser's own state: the (debounced) search text, the page, the page
      size, the month picked and the selected rows. */
  datatype Table = Table(query: string, page: Page, pageSize: PageSize, month: string, selected: seq<Value>)

  /** The state the browser starts in. */
  const Initial: Table := Table("", 1, 10, ALL_MONTHS, [])

  /** `record.field` for a record of unknown shape. */
  function Field(row: Value, k: string): Value {
    if row.Obj? then Get(row.fields, k) else Undefined
  }

  /** The search keeps a record whose serialized text contains the trimmed query,
      ignoring case. */
  predicate MatchesQuery(serialize: Value -> string, q: string, row: Value) {
    Includes(ToLower(serialize(row)), ToLower(Trim(q)))
  }

  /** The month filter keeps a record with a creation date in the current month. */
  predicate CreatedThisMonth(inCurrentMonth: Value -> bool, row: Value) {
    Truthy(Field(row, "created")) && inCurrentMonth(Field(row, "created"))
  }

  /** A record passes the search for `query` (when there is one) and, when a
      month is picked, the month filter. */
  predicate Keeps(query: string, monthPicked: bool, serialize: Value -> string,
                  inCurrentMonth: Value -> bool, row: Value) {
    && (query != "" ==> MatchesQuery(serialize, query, row))
    && (monthPicked ==> CreatedThisMonth(inCurrentMonth, row))
  }

  /** The records surviving both filters, in their original order. Only the
      query, and whether a month is picked, matter. */
  function Filtered(records: seq<Value>, t: Table, serialize: Value -> string,
                    inCurrentMonth: Value -> bool): (r: seq<Value>)
    ensures |r| <= |records|
  {
    KeepPassing(records, t.query, t.month != ALL_MONTHS, serialize, inCurrentMonth)
  }

  function KeepPassing(records: seq<Value>, query: string, monthPicked: bool, serialize: Value -> string,
                       inCurrentMonth: Value -> bool): (r: seq<Value>)
    ensures |r| <= |records|
  {
    if |records| == 0 then []
    else (if Keeps(query, monthPicked, serialize, inCurrentMonth, records[0]) then [records[0]] else [])
         + KeepPassing(records[1..], query, monthPicked, serialize, inCurrentMonth)
  }

  /** The filtering as the browser does it: the search pass (when there is a
      query), then the month pass (when a month is picked). */
  function TwoPasses(records: seq<Value>, t: Table, serialize: Value -> string,
                     inCurrentMonth: Value -> bool): seq<Value> {
    var byText := if t.query != "" then Seqs.Filter(records, row => MatchesQuery(serialize, t.query, row)) else records;
    if t.month != ALL_MONTHS then Seqs.Filter(byText, row => CreatedThisMonth(inCurrentMonth, row)) else byText
  }

  /** One pass with both tests gives the same list as the two passes. */
  lemma FilteredIsTwoPasses(records: seq<Value>, t: Table, serialize: Value -> string,
                            inCurrentMonth: Value -> bool)
    ensures Filtered(records, t, serialize, inCurrentMonth) == TwoPasses(records, t, serialize, inCurrentMonth)
  {
    var picked := t.month != ALL_MONTHS;
    var both := row => Keeps(t.query, picked, serialize, inCurrentMonth, row);
    var byText := row => MatchesQuery(serialize, t.query, row);
    var byMonth := row => CreatedThisMonth(inCurrentMonth, row);
    KeepPassingIsFilter(records, t.query, picked, serialize, inCurrentMonth);
    if t.query != "" && picked {
      Seqs.FilterFilter(records, byText, byMonth, both);
    } else if t.query != "" {
      Seqs.FilterCongruent(records, both, byText);
    } else if picked {
      Seqs.FilterCongruent(records, both, byMonth);
    } else {
      Seqs.FilterKeepsAll(records, both);
    }
  }

  lemma {:induction false} KeepPassingIsFilter(records: seq<Value>, query: string, monthPicked: bool,
                                               serialize: Value -> string, inCurrentMonth: Value -> bool)
    ensures KeepPassing(records, query, monthPicked, serialize, inCurrentMonth)
         == Seqs.Filter(records, row => Keeps(query, monthPicked, serialize, inCurrentMonth, row))
    decreases |records|
  {
    if |records| > 0 {
      KeepPassingIsFilter(records[1..], query, monthPicked, serialize, inCurrentMonth);
    }
  }

  /** A record is kept exactly when it passes both filters. */
  lemma FilteredKeepsPassing(records: seq<Value>, t: Table, serialize: Value -> string,
                             inCurrentMonth: Value -> bool)
    ensures forall x :: x in Filtered(records, t, serialize, inCurrentMonth) <==>
      x in records && Keeps(t.query, t.month != ALL_MONTHS, serialize, inCurrentMonth, x)
  {
    KeepPassingIsFilter(records, t.query, t.month != ALL_MONTHS, serialize, inCurrentMonth);
  }

  /** The rows on screen: the filtered records newest first (the last record
      first), the page of `pageSize` rows starting at `(page - 1) * pageSize`. */
  function Displayed(records: seq<Value>, t: Table, serialize: Value -> string,
                     inCurrentMonth: Value -> bool): seq<Value>
  {
    PageOf(Filtered(records, t, serialize, inCurrentMonth), t.page, t.pageSize)
  }

  /** Page `t.page` of the list `f` read newest first. */
  function PageOf(f: seq<Value>, page: Page, n: PageSize): (r: seq<Value>)
    ensures |r| <= n
    ensures forall i :: 0 <= i < |r| ==> Offset(page, n) + i < |f| && r[i] == f[|f| - 1 - (Offset(page, n) + i)]
  {
    Seqs.JsSlice(Seqs.Reverse(f), Offset(page, n), Offset(page, n) + n)
  }

  /** The position of the page's first row in the newest-first list:
      `(page - 1) * pageSize`. */
  function Offset(page: Page, n: PageSize): nat {
    Times(page - 1, n)
  }

  /** `a * b` as repeated addition: the paging proofs meet the product only
      through `TimesIsProduct`. */
  function Times(a: nat, b: nat): nat {
    if a == 0 then 0 else Times(a - 1, b) + b
  }

  lemma {:induction false} TimesIsProduct(a: nat, b: nat)
    ensures Times(a, b) == a * b
  {
    if a > 0 {
      TimesIsProduct(a - 1, b);
    }
  }

  /** The page that newest-first position `j` falls on, `j / n + 1`, by
      repeated subtraction. */
  function PageFor(j: nat, n: PageSize): Page {
    if j < n then 1 else PageFor(j - n, n) + 1
  }

  /** The row of that page, `j % n`. */
  function RowFor(j: nat, n: PageSize): nat {
    if j < n then j else RowFor(j - n, n)
  }

  lemma {:induction false} PageForPosition(j: nat, n: PageSize)
    ensures Offset(PageFor(j, n), n) + RowFor(j, n) == j && RowFor(j, n) < n
  {
    if j >= n {
      PageForPosition(j - n, n);
      assert PageFor(j, n) - 1 == PageFor(j - n, n);
    }
  }

  /** They are the quotient and remainder of the division by the page size. */
  lemma PageForDivides(j: nat, n: PageSize)
    ensures PageFor(j, n) == j / n + 1 && RowFor(j, n) == j % n
  {
    PageForPosition(j, n);
    TimesIsProduct(PageFor(j, n) - 1, n);
    assert Offset(PageFor(j, n), n) == Times(PageFor(j, n) - 1, n);
    var q := PageFor(j, n) - 1;
    assert j == q * n + RowFor(j, n);
    DivModUnique(j, n, q, RowFor(j, n));
  }

  lemma DivModUnique(j: nat, n: PageSize, q: nat, r: nat)
    requires j == q * n + r && r < n
    ensures q == j / n && r == j % n
  {
  }

  /** The initial rows, before any filter ran: the last `pageSize` records,
      newest first. */
  function InitialRows(records: seq<Value>): seq<Value> {
    Seqs.JsSlice(Seqs.Reverse(records), 0, 10)
  }

  /** The first filtering pass agrees with the initial rows: with no query and
      all months, page 1 shows the last ten records, newest first. */
  lemma InitialRowsAgree(records: seq<Value>, serialize: Value -> string, inCurrentMonth: Value -> bool)
    ensures Displayed(records, Initial, serialize, inCurrentMonth) == InitialRows(records)
    ensures |InitialRows(records)| == Seqs.Min(10, |records|)
    ensures forall i :: 0 <= i < |InitialRows(records)| ==> InitialRows(records)[i] == records[|records| - 1 - i]
  {
    BlankQueryKeepsAll(records, Initial, serialize, inCurrentMonth);
  }

  /** Paging loses nothing: every record passing the filters is on exactly the
      page its newest-first position puts it on (`PageForDivides`: page
      `j / pageSize + 1`, row `j % pageSize`). */
  lemma EveryRecordOnItsPage(records: seq<Value>, t: Table, serialize: Value -> string,
                             inCurrentMonth: Value -> bool, j: nat)
    requires j < |Filtered(records, t, serialize, inCurrentMonth)|
    ensures var f := Filtered(records, t, serialize, inCurrentMonth);
      var d := Displayed(records, t.(page := PageFor(j, t.pageSize)), serialize, inCurrentMonth);
      |d| > RowFor(j, t.pageSize) && d[RowFor(j, t.pageSize)] == f[|f| - 1 - j]
  {
    var f := Filtered(records, t, serialize, inCurrentMonth);
    assert Filtered(records, t.(page := PageFor(j, t.pageSize)), serialize, inCurrentMonth) == f;
    PositionOnItsPage(f, t.pageSize, j);
  }

  /** Newest-first position `j` of the list `f` is row `RowFor(j, n)` of page
      `PageFor(j, n)`. */
  lemma PositionOnItsPage(f: seq<Value>, n: PageSize, j: nat)
    requires j < |f|
    ensures |PageOf(f, PageFor(j, n), n)| > RowFor(j, n) && PageOf(f, PageFor(j, n), n)[RowFor(j, n)] == f[|f| - 1 - j]
  {
    PageForPosition(j, n);
    RowOnPage(f, PageFor(j, n), n, RowFor(j, n));
  }

  /** Row `r` of a page is the record at newest-first position `Offset + r`,
      whenever the list is that long. */
  lemma RowOnPage(f: seq<Value>, page: Page, n: PageSize, r: nat)
    requires r < n && Offset(page, n) + r < |f|
    ensures |PageOf(f, page, n)| > r && PageOf(f, page, n)[r] == f[|f| - 1 - (Offset(page, n) + r)]
  {
    assert |PageOf(f, page, n)| == Seqs.Max(0, Seqs.Min(Offset(page, n) + n, |f|) - Offset(page, n));
  }

  /** A query of white space only passes the truthiness test but keeps every
      record: the trimmed query is empty and occurs in any text. */
  lemma BlankQueryKeepsAll(records: seq<Value>, t: Table, serialize: Value -> string,
                           inCurrentMonth: Value -> bool)
    requires AllWhitespace(t.query)
    requires t.month == ALL_MONTHS
    ensures Filtered(records, t, serialize, inCurrentMonth) == records
  {
    var both := row => Keeps(t.query, false, serialize, inCurrentMonth, row);
    if t.query != "" {
      assert Trim(t.query) == "";
      forall i | 0 <= i < |records| ensures both(records[i]) {
        IncludesEmpty(ToLower(serialize(records[i])));
      }
    }
    KeepPassingIsFilter(records, t.query, false, serialize, inCurrentMonth);
    Seqs.FilterKeepsAll(records, both);
  }

  /** Which month is picked does not matter: any choice other than "All" keeps
      the records created in the current month. */
  lemma MonthChoiceIrrelevant(records: seq<Value>, t: Table, m1: string, m2: string,
                              serialize: Value -> string, inCurrentMonth: Value -> bool)
    requires m1 != ALL_MONTHS && m2 != ALL_MONTHS
    ensures Displayed(records, t.(month := m1), serialize, inCurrentMonth)
         == Displayed(records, t.(month := m2), serialize, inCurrentMonth)
  {
  }

  /** `onPageChange`: only the page moves. */
  function SetPage(t: Table, p: Page): (r: Table)
    ensures r.page == p
    ensures r.query == t.query && r.pageSize == t.pageSize && r.month == t.month && r.selected == t.selected
  {
    t.(page := p)
  }

  /** `onRecordsPerPageChange` followed by the effect that goes back to page 1. */
  function SetPageSize(t: Table, n: PageSize): (r: Table)
    ensures r.pageSize == n && r.page == 1
    ensures r.query == t.query && r.month == t.month && r.selected == t.selected
  {
    t.(pageSize := n, page := 1)
  }

  /** After a page-size change the first rows of the filtered list are shown. */
  lemma PageSizeChangeShowsNewest(records: seq<Value>, t: Table, n: PageSize,
                                  serialize: Value -> string, inCurrentMonth: Value -> bool)
    ensures var f := Filtered(records, t, serialize, inCurrentMonth);
      var d := Displayed(records, SetPageSize(t, n), serialize, inCurrentMonth);
      |d| == Seqs.Min(n, |f|) && forall i :: 0 <= i < |d| ==> d[i] == f[|f| - 1 - i]
  {
    assert Displayed(records, SetPageSize(t, n), serialize, inCurrentMonth)
        == PageOf(Filtered(records, t, serialize, inCurrentMonth), 1, n);
    FirstPage(Filtered(records, t, serialize, inCurrentMonth), n);
  }

  /** The first page holds the newest `pageSize` records, or all when fewer. */
  lemma FirstPage(f: seq<Value>, n: PageSize)
    ensures Offset(1, n) == 0
    ensures |PageOf(f, 1, n)| == Seqs.Min(n, |f|)
    ensures forall i :: 0 <= i < |PageOf(f, 1, n)| ==> PageOf(f, 1, n)[i] == f[|f| - 1 - i]
  {
    assert Offset(1, n) == 0;
  }

  /** `totalRecords`: the pager is given the length of the unfiltered list. */
  function TotalRecords(records: seq<Value>): nat {
    |records|
  }

  /** The pager offers the pages on which some of `total` records would fall:
      pages 1 to `ceil(total / pageSize)`. */
  predicate PageOffered(total: nat, p: Page, n: PageSize) {
    Offset(p, n) < total
  }

  /** The pager's total never falls below the number of records passing the
      filters, and the rows on screen are blank exactly on the pages that start
      past the filtered list. So while a search or the month filter drops
      records, the pager can offer pages that show nothing. */
  lemma PagerCountsUnfiltered(records: seq<Value>, t: Table, serialize: Value -> string,
                              inCurrentMonth: Value -> bool)
    ensures var f := Filtered(records, t, serialize, inCurrentMonth);
      && TotalRecords(records) >= |f|
      && (PageOffered(|f|, t.page, t.pageSize) ==> PageOffered(TotalRecords(records), t.page, t.pageSize))
      && (|Displayed(records, t, serialize, inCurrentMonth)| == 0 <==> !PageOffered(|f|, t.page, t.pageSize))
      && (PageOffered(TotalRecords(records), t.page, t.pageSize) && !PageOffered(|f|, t.page, t.pageSize) ==>
            Displayed(records, t, serialize, inCurrentMonth) == [])
  {
    var f := Filtered(records, t, serialize, inCurrentMonth);
    BlankPage(f, t.page, t.pageSize);
  }

  /** A page of `f` is empty exactly when its offset reaches the list's end. */
  lemma BlankPage(f: seq<Value>, page: Page, n: PageSize)
    ensures |PageOf(f, page, n)| == 0 <==> Offset(page, n) >= |f|
  {
    assert |PageOf(f, page, n)| == Seqs.Max(0, Seqs.Min(Offset(page, n) + n, |f|) - Offset(page, n));
  }

  // ---------------------------------------------------------------------------
  // Delete button
  // ---------------------------------------------------------------------------

  /** The delete button: disabled with a prompt when nothing is selected,
      otherwise the count and a singular or plural noun. */
  function DeleteLabel(selected: nat): (text: string)
    ensures selected == 0 ==> text == "Select records to delete"
    ensures selected >= 1 ==> StartsWith(text, "Delete ")
  {
    if selected == 0 then "Select records to delete"
    else "Delete " + Decimal.NatToString(selected) + (if selected > 1 then " records" else " record")
  }

  predicate DeleteDisabled(selected: nat) {
    selected == 0
  }

  /** The label names the selection exactly: the count can be read back from it,
      the noun is singular for one record only, and two counts never share a
      label. */
  lemma DeleteLabelNamesCount(m: nat, n: nat)
    ensures n >= 1 ==>
      var digits := Decimal.NatToString(n);
      var shown := DeleteLabel(n);
      && LeadingDigits(shown[7..]) == digits && Decimal.ParseNat(digits) == n
      && (shown[7 + |digits|..] == " record" <==> n == 1)
    ensures m != n ==> DeleteLabel(m) != DeleteLabel(n)
    ensures DeleteDisabled(n) <==> DeleteLabel(n) == "Select records to delete"
  {
    Decimal.ParseNatToString(n);
    if n >= 1 {
      LabelDigits(n);
    }
    if m != n {
      if m == 0 || n == 0 {
        assert DeleteLabel(m)[0] != DeleteLabel(n)[0];
      } else {
        LabelDigits(m);
        Decimal.NatToStringInjective(m, n);
        assert DeleteLabel(m)[7..] != DeleteLabel(n)[7..];
      }
    }
  }

  /** The maximal run of digits at the start of `s`. */
  function LeadingDigits(s: string): (r: string)
    ensures Decimal.AllDigits(r)
  {
    if |s| > 0 && Decimal.IsDigit(s[0]) then [s[0]] + LeadingDigits(s[1..]) else ""
  }

  lemma {:induction false} LeadingDigitsOf(d: string, rest: string)
    requires Decimal.AllDigits(d)
    requires |rest| > 0 && !Decimal.IsDigit(rest[0])
    ensures LeadingDigits(d + rest) == d
  {
    if |d| > 0 {
      assert (d + rest)[1..] == d[1..] + rest;
      LeadingDigitsOf(d[1..], rest);
    }
  }

  lemma LabelDigits(n: nat)
    requires n >= 1
    ensures LeadingDigits(DeleteLabel(n)[7..]) == Decimal.NatToString(n)
    ensures DeleteLabel(n)[7 + |Decimal.NatToString(n)|..] == (if n > 1 then " records" else " record")
  {
    var digits := Decimal.NatToString(n);
    var noun := if n > 1 then " records" else " record";
    var text := DeleteLabel(n);
    assert text == "Delete " + (digits + noun);
    DropPrefix("Delete ", digits + noun);
    DropPrefix(digits, noun);
    assert text[7 + |digits|..] == text[7..][|digits|..];
    LeadingDigitsOf(digits, noun);
  }

  lemma DropPrefix(p: string, x: string)
    ensures (p + x)[|p|..] == x
  {
  }

  // ---------------------------------------------------------------------------
  // CSV export
  // ---------------------------------------------------------------------------

  /** A column of the table: an optional accessor and an optional title. */
  datatype Column = Column(accessor: Option<string>, title: Option<string>)

  /** `accessor || title`: `None` stands for `undefined`. */
  function Header(c: Column): Option<string> {
    if c.accessor.Some? && c.accessor.value != "" then c.accessor else c.title
  }

  /** Headers whose lower-case form is "actions" are not exported. */
  predicate Exported(h: Option<string>) {
    !(h.Some? && ToLower(h.value) == "actions")
  }

  /** The property name a header writes: `undefined` becomes "undefined". */
  function HeaderKey(h: Option<string>): string {
    if h.Some? then h.value else "undefined"
  }

  /** `record[header] ?? ""`. */
  function CellValue(row: Value, key: string): Value {
    var v := Field(row, key);
    if v == Null || v == Undefined then Str("") else v
  }

  /** The property names the headers write. */
  function HeaderKeys(headers: seq<Option<string>>): set<string> {
    set j | 0 <= j < |headers| :: HeaderKey(headers[j])
  }

  /** One exported row: a property per header, later duplicates overwriting
      earlier ones with the same value. */
  function ExportRow(row: Value, headers: seq<Option<string>>): (r: map<string, Value>)
    ensures r.Keys == HeaderKeys(headers)
    ensures forall j :: 0 <= j < |headers| ==> HeaderKey(headers[j]) in r
    ensures forall k :: k in r ==> r[k] == CellValue(row, k)
  {
    map k | k in HeaderKeys(headers) :: CellValue(row, k)
  }

  function Headers(cols: seq<Column>): (r: seq<Option<string>>)
    ensures |r| == |cols|
    ensures forall i :: 0 <= i < |cols| ==> r[i] == Header(cols[i])
  {
    seq(|cols|, i requires 0 <= i < |cols| => Header(cols[i]))
  }

  lemma HeadersCover(cols: seq<Column>)
    ensures forall c :: c in cols ==> Header(c) in Headers(cols)
    ensures forall h :: h in Headers(cols) ==> exists c :: c in cols && Header(c) == h
  {
    forall c | c in cols ensures Header(c) in Headers(cols) {
      var i :| 0 <= i < |cols| && cols[i] == c;
      assert Headers(cols)[i] == Header(c);
    }
    forall h | h in Headers(cols) ensures exists c :: c in cols && Header(c) == h {
      var i :| 0 <= i < |cols| && Headers(cols)[i] == h;
      assert cols[i] in cols;
    }
  }

  /** The exported rows of `records`, one per record. */
  function ExportRows(records: seq<Value>, headers: seq<Option<string>>): (r: seq<map<string, Value>>)
    ensures |r| == |records|
    ensures forall i :: 0 <= i < |records| ==> r[i] == ExportRow(records[i], headers)
  {
    seq(|records|, i requires 0 <= i < |records| => ExportRow(records[i], headers))
  }

  /** What is handed to the CSV writer and the file saver. */
  datatype Csv = Csv(fileName: string, fields: seq<Option<string>>, rows: seq<map<string, Value>>)

  /** `exportToCSV()`: aborts without columns; otherwise one row per record (all
      records, ignoring search, month and page), one field per non-"actions"
      column, missing and null cells written as empty text, saved as
      `<title>.csv` or `data.csv`. The fields are the columns' headers in
      column order, duplicates kept, with the "actions" ones left out; every
      row has exactly the properties the fields name. */
  function ExportCsv(columns: Option<seq<Column>>, records: seq<Value>, title: Option<string>): (r: Option<Csv>)
    ensures r.None? <==> columns.None? || |columns.value| == 0
    ensures r.Some? ==>
      && r.value.fileName == (if title.Some? && title.value != "" then title.value else "data") + ".csv"
      && (forall j :: 0 <= j < |r.value.fields| ==> Exported(r.value.fields[j]))
      && (forall j :: 0 <= j < |r.value.fields| ==> exists c :: c in columns.value && Header(c) == r.value.fields[j])
      && (forall c :: c in columns.value && Exported(Header(c)) ==> Header(c) in r.value.fields)
      && Seqs.SubSeq(r.value.fields, Headers(columns.value))
      && |r.value.fields| == Seqs.CountWhere(Headers(columns.value), Exported)
      && |r.value.rows| == |records|
      && (forall i :: 0 <= i < |records| ==> r.value.rows[i].Keys == HeaderKeys(r.value.fields))
      && (forall i, j :: 0 <= i < |records| && 0 <= j < |r.value.fields| ==>
            var k := HeaderKey(r.value.fields[j]);
            k in r.value.rows[i] && r.value.rows[i][k] == CellValue(records[i], k))
  {
    if columns.None? || |columns.value| == 0 then None
    else
      var cols := columns.value;
      var headers := Seqs.Filter(Headers(cols), Exported);
      HeadersCover(cols);
      Seqs.FilterIsSubSeq(Headers(cols), Exported);
      Seqs.FilterLength(Headers(cols), Exported);
      var name := (if title.Some? && title.value != "" then title.value else "data") + ".csv";
      Some(Csv(name, headers, ExportRows(records, headers)))
  }

  lemma ExportRowsSplit(a: seq<Value>, b: seq<Value>, headers: seq<Option<string>>)
    ensures ExportRows(a + b, headers) == ExportRows(a, headers) + ExportRows(b, headers)
  {
    var x, y, z := ExportRows(a + b, headers), ExportRows(a, headers), ExportRows(b, headers);
    forall i | 0 <= i < |a + b| ensures x[i] == (y + z)[i] {
      if i < |a| {
        assert (a + b)[i] == a[i];
      } else {
        assert (a + b)[i] == b[i - |a|];
      }
    }
  }

  /** Each record is exported on its own: exporting two lists one after the
      other gives the same fields, and the rows of the joined list are the rows
      of the first followed by those of the second. */
  lemma ExportSplits(columns: Option<seq<Column>>, a: seq<Value>, b: seq<Value>, title: Option<string>)
    ensures ExportCsv(columns, a + b, title).None? <==> ExportCsv(columns, a, title).None?
    ensures ExportCsv(columns, a, title).None? <==> ExportCsv(columns, b, title).None?
    ensures ExportCsv(columns, a + b, title).Some? ==>
      var x, y, z := ExportCsv(columns, a + b, title).value, ExportCsv(columns, a, title).value,
                     ExportCsv(columns, b, title).value;
      && x.fields == y.fields == z.fields
      && x.rows == y.rows + z.rows
  {
    if columns.Some? && |columns.value| > 0 {
      var headers := Seqs.Filter(Headers(columns.value), Exported);
      assert ExportCsv(columns, a + b, title).value.rows == ExportRows(a + b, headers);
      assert ExportCsv(columns, a, title).value.rows == ExportRows(a, headers);
      assert ExportCsv(columns, b, title).value.rows == ExportRows(b, headers);
      ExportRowsSplit(a, b, headers);
    }
  }

}
