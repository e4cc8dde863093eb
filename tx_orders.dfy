/** The Texas executive-order scraper of `executiveOrderScrapers/tx_EOs.py`:
    the walk over the rows of the first table of the listing page, the `td`
    cells read from each row, and the rewriting of the document link. The
    page is given as its first table, each row as its `td` cells. */
module TxOrders {
  import opened Wrappers
  import opened Strings

  /** The current host of the Legislative Reference Library. */
  const Host := "https://lrl.texas.gov"

  /** The library's former host, still found in some absolute links. */
  const LegacyHost := "http://www.lrl.state.tx.us"

  /** The first `a` element inside a cell: its text pieces and its `href`. */
  datatype Anchor = Anchor(texts: seq<string>, href: Option<string>)

  /** One `td` cell: the text pieces under it, in document order, and the
      first anchor inside it, if any. */
  datatype Cell = Cell(texts: seq<string>, anchor: Option<Anchor>)

  type Row = seq<Cell>

  /** One record of the output. */
  datatype TxOrder = TxOrder(
    date: string, session: string, title: string, pdfUrl: string,
    author: string, kind: string, documentNumber: string)

  /** What `requests.get` gives: an exception (no connection, a timeout,
      an invalid URL), or a page whose first table is `table`, `None` when
      the page has no table. The status code is not looked at. */
  datatype Reply = Unreachable | Reached(table: Option<seq<Row>>)

  /** Why the scrape raised: the request itself failed, the page has no
      table (`None.find_all`), a full row has no anchor in its third cell
      (`None['href']`), or that anchor has no `href` (a KeyError). Each
      ends the whole scrape. */
  datatype ScrapeError = RequestFailed | NoTable | MissingAnchor | MissingHref

  /** BeautifulSoup's `get_text(strip=True)`: the stripped text pieces,
      concatenated. */
  function GetText(texts: seq<string>): string
    decreases |texts|
  {
    if texts == [] then "" else Strip(texts[0]) + GetText(texts[1..])
  }

  /** The document link of a record. */
  function PdfUrl(href: string): string {
    if !StartsWith(href, "http") then Host + href
    else ReplaceAll(href, LegacyHost, Host)
  }

  /** A row has all the expected columns when it has at least six cells. */
  predicate IsFull(row: Row) {
    |row| >= 6
  }

  /** One data row: skipped (`None`) when it lacks columns, else its record
      or the error that ends the scrape. */
  function RowRecord(row: Row): Result<Option<TxOrder>, ScrapeError> {
    if !IsFull(row) then Ok(None)
    else match row[2].anchor
      case None => Err(MissingAnchor)
      case Some(a) =>
        match a.href
        case None => Err(MissingHref)
        case Some(href) =>
          Ok(Some(TxOrder(
            GetText(row[0].texts), GetText(row[1].texts), GetText(a.texts),
            PdfUrl(href), GetText(row[3].texts), GetText(row[4].texts), GetText(row[5].texts))))
  }

  /** The records of the data rows `rows`, or the error of the first row
      that fails. */
  function Records(rows: seq<Row>): Result<seq<TxOrder>, ScrapeError>
    decreases |rows|
  {
    if rows == [] then Ok([])
    else
      match Records(rows[..|rows| - 1])
      case Err(e) => Err(e)
      case Ok(done) =>
        match RowRecord(rows[|rows| - 1])
        case Err(e) => Err(e)
        case Ok(None) => Ok(done)
        case Ok(Some(r)) => Ok(done + [r])
  }

  /** What `scrape_executive_orders` returns for the reply to its request:
      the header row of the first table is dropped. */
  function Scrape(reply: Reply): Result<seq<TxOrder>, ScrapeError> {
    match reply
    case Unreachable => Err(RequestFailed)
    case Reached(None) => Err(NoTable)
    case Reached(Some(rows)) => if rows == [] then Ok([]) else Records(rows[1..])
  }

  /** `scrape_executive_orders`: the loop over the rows after the header,
      with `continue` on rows that lack columns. */
  method ScrapeExecutiveOrders(reply: Reply) returns (result: Result<seq<TxOrder>, ScrapeError>)
    ensures result == Scrape(reply)
  {
    if reply.Unreachable? {
      return Err(RequestFailed);
    }
    if reply.table.None? {
      return Err(NoTable);
    }
    var all := reply.table.value;
    var rows := if all == [] then [] else all[1..];
    var results: seq<TxOrder> := [];
    for i := 0 to |rows|
      invariant Records(rows[..i]) == Ok(results)
    {
      assert rows[..i + 1][..i] == rows[..i];
      var row := rows[i];
      if !IsFull(row) {
        continue;
      }
      var step := RowRecord(row);
      if step.Err? {
        RecordsErrorStays(rows, i + 1);
        assert rows[..|rows|] == rows;
        return Err(step.error);
      }
      results := results + [step.value.value];
    }
    assert rows[..|rows|] == rows;
    result := Ok(results);
  }

  /** Once a row has raised, the rows after it change nothing. */
  lemma {:induction false} RecordsErrorStays(rows: seq<Row>, k: nat)
    requires k <= |rows| && Records(rows[..k]).Err?
    ensures Records(rows) == Records(rows[..k])
    decreases |rows| - k
  {
    if k < |rows| {
      assert rows[..k + 1][..k] == rows[..k];
      RecordsErrorStays(rows, k + 1);
    } else {
      assert rows[..k] == rows;
    }
  }

  /** Rows only ever raise for a missing anchor or `href`. */
  lemma {:induction false} RecordsErrors(rows: seq<Row>)
    ensures Records(rows).Err? ==> Records(rows).error == MissingAnchor || Records(rows).error == MissingHref
    decreases |rows|
  {
    if rows != [] {
      RecordsErrors(rows[..|rows| - 1]);
    }
  }

  /** The scrape fails on the request exactly when the request fails, and
      on a missing table exactly when the page has none; every other
      error comes from a row. */
  lemma ScrapeErrors(reply: Reply)
    ensures Scrape(reply) == Err(RequestFailed) <==> reply.Unreachable?
    ensures Scrape(reply) == Err(NoTable) <==> reply == Reached(None)
    ensures reply.Reached? && reply.table.Some? && Scrape(reply).Err? ==>
              Scrape(reply).error == MissingAnchor || Scrape(reply).error == MissingHref
  {
    if reply.Reached? && reply.table.Some? && reply.table.value != [] {
      RecordsErrors(reply.table.value[1..]);
    }
  }

  /** The header row never yields a record: what it holds does not matter. */
  lemma HeaderIgnored(header1: Row, header2: Row, rows: seq<Row>)
    ensures Scrape(Reached(Some([header1] + rows))) == Scrape(Reached(Some([header2] + rows)))
    ensures Scrape(Reached(Some([header1] + rows))) == Records(rows)
  {
    assert ([header1] + rows)[1..] == rows;
    assert ([header2] + rows)[1..] == rows;
  }

  /** A single row: skipped when it has fewer than six cells, an error
      when its third cell has no anchor or the anchor no `href`, and
      otherwise one record whose fields are the stripped texts of cells 0,
      1, 3, 4 and 5, whose title is the anchor's text and whose link is
      the rewritten `href`. */
  lemma RowRule(row: Row)
    ensures !IsFull(row) ==> Records([row]) == Ok([])
    ensures IsFull(row) && row[2].anchor.None? ==> Records([row]) == Err(MissingAnchor)
    ensures IsFull(row) && row[2].anchor.Some? && row[2].anchor.value.href.None? ==> Records([row]) == Err(MissingHref)
    ensures IsFull(row) && row[2].anchor.Some? && row[2].anchor.value.href.Some? ==>
              var a := row[2].anchor.value;
              Records([row]) == Ok([TxOrder(
                GetText(row[0].texts), GetText(row[1].texts), GetText(a.texts), PdfUrl(a.href.value),
                GetText(row[3].texts), GetText(row[4].texts), GetText(row[5].texts))])
  {
    var one := [row];
    assert one[..|one| - 1] == [] && one[|one| - 1] == row;
    assert Records(one[..|one| - 1]) == Ok([]);
    match RowRecord(row)
    case Ok(Some(r)) =>
      assert [] + [r] == [r];
    case _ =>
  }

  /** Cells after the sixth are never read. */
  lemma ExtraCellsIgnored(row: Row, extra: seq<Cell>)
    requires IsFull(row)
    ensures RowRecord(row + extra) == RowRecord(row)
  {
    var r := row + extra;
    assert r[0] == row[0] && r[1] == row[1] && r[2] == row[2];
    assert r[3] == row[3] && r[4] == row[4] && r[5] == row[5];
  }

  /** Rows are handled in order: when the first stretch yields its
      records, the records of both stretches follow each other. */
  lemma {:induction false} RecordsConcat(a: seq<Row>, b: seq<Row>)
    requires Records(a).Ok?
    ensures Records(a + b) == match Records(b)
                              case Err(e) => Err(e)
                              case Ok(more) => Ok(Records(a).value + more)
    decreases |b|
  {
    if b == [] {
      assert a + b == a;
      assert Records(a).value + [] == Records(a).value;
    } else {
      var n := |b| - 1;
      assert (a + b)[..|a + b| - 1] == a + b[..n];
      assert (a + b)[|a + b| - 1] == b[n];
      RecordsConcat(a, b[..n]);
      match Records(b[..n])
      case Err(e) =>
      case Ok(more) =>
        match RowRecord(b[n])
        case Err(e) =>
        case Ok(None) =>
        case Ok(Some(r)) =>
          assert Records(a).value + more + [r] == Records(a).value + (more + [r]);
    }
  }

  /** The number of rows with at least six cells. */
  function FullCount(rows: seq<Row>): nat
    decreases |rows|
  {
    if rows == [] then 0
    else FullCount(rows[..|rows| - 1]) + (if IsFull(rows[|rows| - 1]) then 1 else 0)
  }

  /** When the scrape succeeds, every full row gave exactly one record. */
  lemma {:induction false} RecordsCount(rows: seq<Row>)
    requires Records(rows).Ok?
    ensures |Records(rows).value| == FullCount(rows)
    decreases |rows|
  {
    if rows != [] {
      RecordsCount(rows[..|rows| - 1]);
    }
  }

  /** The text of a run of pieces is the text of each part, put
      together. */
  lemma {:induction false} GetTextConcat(a: seq<string>, b: seq<string>)
    ensures GetText(a + b) == GetText(a) + GetText(b)
    decreases |a|
  {
    if a != [] {
      assert (a + b)[1..] == a[1..] + b;
      GetTextConcat(a[1..], b);
    } else {
      assert a + b == b;
    }
  }

  /** A cell's text has no whitespace at either end. */
  lemma {:induction false} GetTextStripped(texts: seq<string>)
    ensures IsStripped(GetText(texts))
    decreases |texts|
  {
    if texts != [] {
      GetTextStripped(texts[1..]);
      var _, _ := StripShape(texts[0]);
      StrippedConcat(Strip(texts[0]), GetText(texts[1..]));
    }
  }

  /** A relative link is put under the library's host. */
  lemma RelativeLink(href: string)
    requires !StartsWith(href, "http")
    ensures StartsWith(PdfUrl(href), Host) && PdfUrl(href)[|Host|..] == href
  {
    assert (Host + href)[..|Host|] == Host;
    assert (Host + href)[|Host|..] == href;
  }

  /** An absolute link that does not mention the former host is kept. */
  lemma AbsoluteLinkKept(href: string)
    requires StartsWith(href, "http") && !Contains(href, LegacyHost)
    ensures PdfUrl(href) == href
  {
    ReplaceAbsent(href, LegacyHost, Host);
  }

  /** A link on the former host is moved to the current one, the path
      after the host being kept when it does not mention the former host
      again. */
  lemma LegacyLinkMoved(path: string)
    requires !Contains(path, LegacyHost)
    ensures PdfUrl(LegacyHost + path) == Host + path
  {
    var href := LegacyHost + path;
    assert href[..|LegacyHost|] == LegacyHost;
    assert href[..4] == "http";
    assert href[|LegacyHost|..] == path;
    ReplaceAbsent(path, LegacyHost, Host);
  }
}
