/** The California executive-order scraper of
    `executiveOrderScrapers/ca_EOs.py`: locating the CSV export link on the
    listing page, and mapping the rows of that CSV to order records. The
    page is given as its HTTP status and the `href` values of its anchors,
    the CSV as its rows, each a map from column name to cell text. */
module CaOrders {
  import opened Wrappers
  import opened Strings
  import opened Http

  const BaseUrl := "https://www.library.ca.gov"

  /** What an anchor's `href` must contain to be the CSV export link. */
  const CsvLinkPattern := "download-csv-executive-order.php"

  // ---------------------------------------------------------------------
  // The CSV link
  // ---------------------------------------------------------------------

  /** The listing page as fetched: the request raised, or a response with
      its status and, for each anchor in document order, its `href`. */
  datatype PageReply = Unreachable | Page(status: int, hrefs: seq<Option<string>>)

  /** Why no CSV URL was found; each escapes `find_csv_url` as an
      exception. */
  datatype LinkError = RequestFailed | HttpError(status: int) | NoCsvLink

  predicate IsCsvLink(href: Option<string>) {
    href.Some? && Contains(href.value, CsvLinkPattern)
  }

  /** The `href` of the first anchor that is a CSV link. */
  function FirstCsvLink(hrefs: seq<Option<string>>): Option<string>
    decreases |hrefs|
  {
    if hrefs == [] then None
    else if IsCsvLink(hrefs[0]) then hrefs[0]
    else FirstCsvLink(hrefs[1..])
  }

  /** A root-relative link is resolved against the site; any other is
      kept as it is. */
  function Resolve(href: string): string {
    if StartsWith(href, "/") then BaseUrl + href else href
  }

  /** `find_csv_url`. */
  function FindCsvUrl(reply: PageReply): Result<string, LinkError> {
    match reply
    case Unreachable => Err(RequestFailed)
    case Page(status, hrefs) =>
      if IsErrorStatus(status) then Err(HttpError(status))
      else match FirstCsvLink(hrefs)
        case None => Err(NoCsvLink)
        case Some(href) => Ok(Resolve(href))
  }

  /** The first CSV link is the link of the first anchor whose `href`
      contains the pattern; there is none exactly when no anchor has one. */
  lemma {:induction false} FirstCsvLinkShape(hrefs: seq<Option<string>>) returns (k: nat)
    ensures FirstCsvLink(hrefs).None? <==> forall j :: 0 <= j < |hrefs| ==> !IsCsvLink(hrefs[j])
    ensures FirstCsvLink(hrefs).Some? ==>
              k < |hrefs| && hrefs[k] == FirstCsvLink(hrefs) && IsCsvLink(hrefs[k])
              && forall j :: 0 <= j < k ==> !IsCsvLink(hrefs[j])
    decreases |hrefs|
  {
    k := 0;
    if hrefs != [] && !IsCsvLink(hrefs[0]) {
      var k' := FirstCsvLinkShape(hrefs[1..]);
      k := k' + 1;
      assert forall j :: 1 <= j < |hrefs| ==> hrefs[j] == hrefs[1..][j - 1];
    }
  }

  /** A root-relative link becomes the site address followed by the link;
      every other link is returned unchanged. Either way the result ends
      with the link. */
  lemma ResolveRule(href: string)
    ensures StartsWith(href, "/") ==> StartsWith(Resolve(href), BaseUrl) && Resolve(href)[|BaseUrl|..] == href
    ensures !StartsWith(href, "/") ==> Resolve(href) == href
    ensures EndsWith(Resolve(href), href)
  {
    if StartsWith(href, "/") {
      assert (BaseUrl + href)[..|BaseUrl|] == BaseUrl;
      assert (BaseUrl + href)[|BaseUrl|..] == href;
    }
  }

  /** The outcomes of `find_csv_url`: the request's own failure, an error
      status, no CSV link (the ValueError), or the resolved first CSV link. */
  lemma FindCsvUrlOutcomes(reply: PageReply)
    ensures reply.Unreachable? ==> FindCsvUrl(reply) == Err(RequestFailed)
    ensures reply.Page? && IsErrorStatus(reply.status) ==> FindCsvUrl(reply) == Err(HttpError(reply.status))
    ensures reply.Page? && !IsErrorStatus(reply.status) ==>
              (FindCsvUrl(reply) == Err(NoCsvLink) <==> forall j :: 0 <= j < |reply.hrefs| ==> !IsCsvLink(reply.hrefs[j]))
    ensures FindCsvUrl(reply).Ok? ==>
              exists j :: 0 <= j < |reply.hrefs| && IsCsvLink(reply.hrefs[j])
                && FindCsvUrl(reply).value == Resolve(reply.hrefs[j].value)
                && forall i :: 0 <= i < j ==> !IsCsvLink(reply.hrefs[i])
  {
    if reply.Page? {
      var k := FirstCsvLinkShape(reply.hrefs);
    }
  }

  // ---------------------------------------------------------------------
  // Rows of the CSV
  // ---------------------------------------------------------------------

  /** One CSV row, as `csv.DictReader` gives it: each header column maps
      to its text, or to `None` (the reader's `restval`) when the row stops
      before that column. */
  type Row = map<string, Option<string>>

  /** `row.get(key, "")`. */
  function Get(row: Row, key: string): Option<string> {
    if key in row then row[key] else Some("")
  }

  /** The value the code reads from a column is the `None` of a short row:
      `.strip()` raises AttributeError on it and `in` raises TypeError. */
  predicate Unfilled(row: Row, key: string) {
    Get(row, key).None?
  }

  /** The text read from a column; only read where the column is not
      unfilled, "" when the column is missing. */
  function Column(row: Row, key: string): string {
    match Get(row, key)
    case Some(text) => text
    case None => ""
  }

  /** A column's stripped text, "" when the column is missing. */
  function Field(row: Row, key: string): string {
    Strip(Column(row, key))
  }

  /** The name of tag column `i`. */
  function TagColumn(i: nat): string {
    "Tag " + Decimal(i)
  }

  /** Tags are read from columns `Tag 1` to `Tag 14`. */
  const LastTag := 14

  /** The stripped values of columns `Tag 1 .. Tag 14`, in column order:
      entry `i` is column `Tag i+1`. */
  function TagValues(row: Row): seq<string> {
    seq(LastTag, (i: nat) => Field(row, TagColumn(i + 1)))
  }

  /** The values that are not empty, in their order. */
  function NonEmpty(values: seq<string>): seq<string>
    decreases |values|
  {
    if values == [] then []
    else
      var last := values[|values| - 1];
      NonEmpty(values[..|values| - 1]) + (if last != "" then [last] else [])
  }

  /** The tags of a row, in column order. */
  function Tags(row: Row): seq<string> {
    NonEmpty(TagValues(row))
  }

  /** The `tags` field of a record. */
  function CombinedTags(row: Row): string {
    Join(Tags(row), ", ")
  }

  /** One record of the output. */
  datatype CaOrder = CaOrder(
    number: string, governor: string, dateSigned: string,
    dateFiled: string, pdfLink: string, tags: string)

  /** The exception that ends `extract_executive_orders`: the code read
      the `None` of `column` in a short row. */
  datatype RowError = NoneValue(column: string)

  /** The tag columns, in the order the comprehension reads them. */
  function TagColumns(): seq<string> {
    seq(LastTag, (i: nat) => TagColumn(i + 1))
  }

  /** The columns of a record, in the order the record reads them. */
  const RecordColumns := ["Executive Order Number", "Last Name", "Date Signed", "Date Filed", "Link"]

  /** The first of `keys` that is unfilled in the row. */
  function FirstUnfilled(row: Row, keys: seq<string>): Option<string>
    decreases |keys|
  {
    if keys == [] then None
    else if Unfilled(row, keys[0]) then Some(keys[0])
    else FirstUnfilled(row, keys[1..])
  }

  /** A row describes an executive order when its unstripped `Type`
      contains the phrase. */
  predicate IsExecutiveOrder(row: Row) {
    Contains(Column(row, "Type"), "Executive Order")
  }

  function MapRow(row: Row): CaOrder {
    CaOrder(
      Field(row, "Executive Order Number"), Field(row, "Last Name"),
      Field(row, "Date Signed"), Field(row, "Date Filed"),
      Field(row, "Link"), CombinedTags(row))
  }

  /** One row: the tags are read first, then `Type`, then, for an
      executive order, the fields of its record; the first unfilled value
      read raises. */
  function RowOutcome(row: Row): Result<Option<CaOrder>, RowError> {
    match FirstUnfilled(row, TagColumns())
    case Some(key) => Err(NoneValue(key))
    case None =>
      if Unfilled(row, "Type") then Err(NoneValue("Type"))
      else if !IsExecutiveOrder(row) then Ok(None)
      else
        match FirstUnfilled(row, RecordColumns)
        case Some(key) => Err(NoneValue(key))
        case None => Ok(Some(MapRow(row)))
  }

  /** What `extract_executive_orders` returns for the rows of a CSV: the
      records of the executive-order rows, or the error of the first row
      that raises. */
  function ExecutiveOrders(rows: seq<Row>): Result<seq<CaOrder>, RowError>
    decreases |rows|
  {
    if rows == [] then Ok([])
    else
      match ExecutiveOrders(rows[..|rows| - 1])
      case Err(e) => Err(e)
      case Ok(done) =>
        match RowOutcome(rows[|rows| - 1])
        case Err(e) => Err(e)
        case Ok(None) => Ok(done)
        case Ok(Some(r)) => Ok(done + [r])
  }

  /** `extract_executive_orders`: one pass over the rows, appending the
      record of every executive-order row. */
  method ExtractExecutiveOrders(rows: seq<Row>) returns (result: Result<seq<CaOrder>, RowError>)
    ensures result == ExecutiveOrders(rows)
  {
    var orders: seq<CaOrder> := [];
    for i := 0 to |rows|
      invariant ExecutiveOrders(rows[..i]) == Ok(orders)
    {
      assert rows[..i + 1][..i] == rows[..i];
      var step := RowOutcome(rows[i]);
      if step.Err? {
        ExecutiveOrdersErrorStays(rows, i + 1);
        assert rows[..|rows|] == rows;
        return Err(step.error);
      }
      if step.value.Some? {
        orders := orders + [step.value.value];
      }
    }
    assert rows[..|rows|] == rows;
    result := Ok(orders);
  }

  /** Once a row has raised, the rows after it change nothing. */
  lemma {:induction false} ExecutiveOrdersErrorStays(rows: seq<Row>, k: nat)
    requires k <= |rows| && ExecutiveOrders(rows[..k]).Err?
    ensures ExecutiveOrders(rows) == ExecutiveOrders(rows[..k])
    decreases |rows| - k
  {
    if k < |rows| {
      assert rows[..k + 1][..k] == rows[..k];
      ExecutiveOrdersErrorStays(rows, k + 1);
    } else {
      assert rows[..k] == rows;
    }
  }

  /** The search for an unfilled value finds the leftmost one, and finds
      none exactly when every one of `keys` is filled. */
  lemma {:induction false} FirstUnfilledRule(row: Row, keys: seq<string>) returns (i: nat)
    ensures FirstUnfilled(row, keys).None? <==> forall k :: 0 <= k < |keys| ==> !Unfilled(row, keys[k])
    ensures FirstUnfilled(row, keys).Some? ==>
              i < |keys| && FirstUnfilled(row, keys).value == keys[i] && Unfilled(row, keys[i])
              && forall k :: 0 <= k < i ==> !Unfilled(row, keys[k])
    decreases |keys|
  {
    i := 0;
    if keys != [] && !Unfilled(row, keys[0]) {
      var j := FirstUnfilledRule(row, keys[1..]);
      i := j + 1;
      assert forall k :: 1 <= k < |keys| ==> keys[k] == keys[1..][k - 1];
    }
  }

  /** A row raises exactly when a tag column or `Type` is unfilled, or the
      row is an executive order and a column of its record is unfilled;
      otherwise it gives its record exactly when it is an executive
      order. */
  lemma RowOutcomeRule(row: Row)
    ensures RowOutcome(row).Err? <==>
              (exists i :: 1 <= i <= LastTag && Unfilled(row, TagColumn(i)))
              || Unfilled(row, "Type")
              || (IsExecutiveOrder(row) && exists k :: 0 <= k < |RecordColumns| && Unfilled(row, RecordColumns[k]))
    ensures RowOutcome(row).Err? ==> Unfilled(row, RowOutcome(row).error.column)
    ensures RowOutcome(row).Ok? ==>
              RowOutcome(row).value == if IsExecutiveOrder(row) then Some(MapRow(row)) else None
  {
    var tags := TagColumns();
    var t := FirstUnfilledRule(row, tags);
    var r := FirstUnfilledRule(row, RecordColumns);
    assert forall i :: 1 <= i <= LastTag ==> tags[i - 1] == TagColumn(i);
    if exists i :: 1 <= i <= LastTag && Unfilled(row, TagColumn(i)) {
      var i :| 1 <= i <= LastTag && Unfilled(row, TagColumn(i));
      assert Unfilled(row, tags[i - 1]);
    }
  }

  /** A row none of whose values is unfilled (a row as long as the header)
      never raises. */
  predicate Filled(row: Row) {
    forall key :: key in row ==> row[key].Some?
  }

  /** Rows as long as the header never raise. */
  lemma {:induction false} FilledRowsSucceed(rows: seq<Row>)
    requires forall k :: 0 <= k < |rows| ==> Filled(rows[k])
    ensures ExecutiveOrders(rows).Ok?
    decreases |rows|
  {
    if rows != [] {
      var last := rows[|rows| - 1];
      FilledRowsSucceed(rows[..|rows| - 1]);
      RowOutcomeRule(last);
    }
  }

  /** The kept values sit at the increasing indices `idx` of the input,
      and none of them is empty. */
  lemma {:induction false} NonEmptyShape(values: seq<string>) returns (idx: seq<nat>)
    ensures |idx| == |NonEmpty(values)| <= |values|
    ensures forall k :: 0 <= k < |idx| ==>
              idx[k] < |values| && NonEmpty(values)[k] == values[idx[k]] && values[idx[k]] != ""
    ensures forall k, l :: 0 <= k < l < |idx| ==> idx[k] < idx[l]
    decreases |values|
  {
    if values == [] {
      idx := [];
    } else {
      var n := |values| - 1;
      var init := values[..n];
      var before := NonEmptyShape(init);
      var kept := NonEmpty(values);
      assert kept == NonEmpty(init) + (if values[n] != "" then [values[n]] else []);
      idx := if values[n] != "" then before + [n] else before;
      forall k | 0 <= k < |idx|
        ensures idx[k] < |values| && kept[k] == values[idx[k]] && values[idx[k]] != ""
      {
        if k < |before| {
          assert idx[k] == before[k] && kept[k] == NonEmpty(init)[k];
          assert init[before[k]] == values[before[k]];
        }
      }
    }
  }

  /** No non-empty value is dropped. */
  lemma {:induction false} NonEmptyComplete(values: seq<string>, i: nat)
    requires i < |values| && values[i] != ""
    ensures values[i] in NonEmpty(values)
    decreases |values|
  {
    var n := |values| - 1;
    if i < n {
      assert values[..n][i] == values[i];
      NonEmptyComplete(values[..n], i);
    }
  }

  /** Values are filtered one at a time: the kept values of two stretches
      are those of each, in order. */
  lemma {:induction false} NonEmptyConcat(a: seq<string>, b: seq<string>)
    ensures NonEmpty(a + b) == NonEmpty(a) + NonEmpty(b)
    decreases |b|
  {
    if b == [] {
      assert a + b == a;
    } else {
      var n := |b| - 1;
      assert (a + b)[..|a + b| - 1] == a + b[..n];
      NonEmptyConcat(a, b[..n]);
    }
  }

  /** Each tag is the stripped, non-empty value of a tag column: the
      columns `cols` it comes from are among `Tag 1 .. Tag 14` and
      increase, and every column holding more than whitespace gives a tag. */
  lemma TagsShape(row: Row) returns (cols: seq<nat>)
    ensures |cols| == |Tags(row)| <= LastTag
    ensures forall k :: 0 <= k < |cols| ==>
              1 <= cols[k] <= LastTag && Tags(row)[k] == Field(row, TagColumn(cols[k]))
              && Tags(row)[k] != "" && IsStripped(Tags(row)[k])
    ensures forall k, l :: 0 <= k < l < |cols| ==> cols[k] < cols[l]
    ensures forall i :: 1 <= i <= LastTag && Field(row, TagColumn(i)) != "" ==> Field(row, TagColumn(i)) in Tags(row)
  {
    var values := TagValues(row);
    var idx := NonEmptyShape(values);
    cols := seq(|idx|, k requires 0 <= k < |idx| => idx[k] + 1);
    forall k | 0 <= k < |cols|
      ensures Tags(row)[k] == Field(row, TagColumn(cols[k])) && IsStripped(Tags(row)[k])
    {
      assert values[idx[k]] == Field(row, TagColumn(idx[k] + 1));
      var _, _ := StripShape(Column(row, TagColumn(cols[k])));
    }
    forall i | 1 <= i <= LastTag && Field(row, TagColumn(i)) != ""
      ensures Field(row, TagColumn(i)) in Tags(row)
    {
      assert values[i - 1] == Field(row, TagColumn(i));
      NonEmptyComplete(values, i - 1);
    }
  }

  /** Only columns `Tag 1` to `Tag 14` matter to the tags: rows that agree
      on them have the same tags, whatever else they hold. */
  lemma TagsOnlyFromTagColumns(r1: Row, r2: Row)
    requires forall i :: 1 <= i <= LastTag ==> Column(r1, TagColumn(i)) == Column(r2, TagColumn(i))
    ensures CombinedTags(r1) == CombinedTags(r2)
  {
    assert TagValues(r1) == TagValues(r2);
  }

  /** The tags field is "" exactly when no tag column holds more than
      whitespace. */
  lemma CombinedTagsEmpty(row: Row)
    ensures CombinedTags(row) == "" <==> forall i :: 1 <= i <= LastTag ==> Field(row, TagColumn(i)) == ""
  {
    var cols := TagsShape(row);
    JoinEmpty(Tags(row), ", ");
  }

  /** A non-empty value is joined after the values before it, with ", "
      between them. */
  lemma NonEmptyJoinStep(values: seq<string>, v: string)
    requires v != ""
    ensures NonEmpty(values + [v]) == NonEmpty(values) + [v]
    ensures Join(NonEmpty(values + [v]), ", ") ==
              if NonEmpty(values) == [] then v else Join(NonEmpty(values), ", ") + ", " + v
  {
    assert (values + [v])[..|values|] == values;
    JoinSnoc(NonEmpty(values), v, ", ");
  }

  /** Every field of a record is stripped, and a missing column gives "". */
  lemma MapRowFields(row: Row)
    ensures var o := MapRow(row);
            IsStripped(o.number) && IsStripped(o.governor) && IsStripped(o.dateSigned)
            && IsStripped(o.dateFiled) && IsStripped(o.pdfLink)
    ensures "Executive Order Number" !in row ==> MapRow(row).number == ""
    ensures "Last Name" !in row ==> MapRow(row).governor == ""
    ensures "Date Signed" !in row ==> MapRow(row).dateSigned == ""
    ensures "Date Filed" !in row ==> MapRow(row).dateFiled == ""
    ensures "Link" !in row ==> MapRow(row).pdfLink == ""
  {
    var _, _ := StripShape(Column(row, "Executive Order Number"));
    var _, _ := StripShape(Column(row, "Last Name"));
    var _, _ := StripShape(Column(row, "Date Signed"));
    var _, _ := StripShape(Column(row, "Date Filed"));
    var _, _ := StripShape(Column(row, "Link"));
  }

  /** A single row that does not raise gives its record exactly when its
      `Type` contains "Executive Order", and nothing otherwise; one that
      raises ends the extraction with its error. */
  lemma ExecutiveOrdersSingle(row: Row)
    ensures RowOutcome(row).Ok? ==>
              ExecutiveOrders([row]) == Ok(if IsExecutiveOrder(row) then [MapRow(row)] else [])
    ensures RowOutcome(row).Err? ==> ExecutiveOrders([row]) == Err(RowOutcome(row).error)
  {
    assert [row][..0] == [];
    RowOutcomeRule(row);
    match RowOutcome(row)
    case Ok(Some(r)) =>
      assert [] + [r] == [r];
    case _ =>
  }

  /** When the extraction succeeds, the output is no longer than the
      input. */
  lemma {:induction false} ExecutiveOrdersBound(rows: seq<Row>)
    requires ExecutiveOrders(rows).Ok?
    ensures |ExecutiveOrders(rows).value| <= |rows|
    decreases |rows|
  {
    if rows != [] {
      ExecutiveOrdersBound(rows[..|rows| - 1]);
    }
  }

  /** Rows are handled one at a time, in order: when the first stretch of
      the CSV does not raise, the records of both stretches follow each
      other. */
  lemma {:induction false} ExecutiveOrdersConcat(a: seq<Row>, b: seq<Row>)
    requires ExecutiveOrders(a).Ok?
    ensures ExecutiveOrders(a + b) == match ExecutiveOrders(b)
                                      case Err(e) => Err(e)
                                      case Ok(more) => Ok(ExecutiveOrders(a).value + more)
    decreases |b|
  {
    if b == [] {
      assert a + b == a;
      assert ExecutiveOrders(a).value + [] == ExecutiveOrders(a).value;
    } else {
      var n := |b| - 1;
      assert (a + b)[..|a + b| - 1] == a + b[..n];
      assert (a + b)[|a + b| - 1] == b[n];
      ExecutiveOrdersConcat(a, b[..n]);
      match ExecutiveOrders(b[..n])
      case Err(e) =>
      case Ok(more) =>
        match RowOutcome(b[n])
        case Err(e) =>
        case Ok(None) =>
        case Ok(Some(r)) =>
          assert ExecutiveOrders(a).value + more + [r] == ExecutiveOrders(a).value + (more + [r]);
    }
  }
}
