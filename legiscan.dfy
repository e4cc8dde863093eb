/** The LegiScan collector of `legiscanScraper/legiscan_scraper.py`: the
    checked API request, the session list and the bill master list, the
    selection of recent sessions and of passed bills, and the document URLs
    kept for each passed bill. The API is given as data: one reply for the
    session list, and functions from a session id to its master-list reply
    and from a bill id to its bill reply. JSON objects are modelled as
    records whose optional fields are the keys that may be missing. */
module Legiscan {
  import opened Wrappers
  import opened Http

  /** A reply of the API: the request raised, or a response with its
      status code and its body (`None` when the body is not JSON). */
  datatype Reply<T> = Failed | Response(code: int, body: Option<Body<T>>)

  /** A decoded body: its `status` field and the operation's payload
      (`sessions`, `masterlist` or `bill`), each `None` when absent. */
  datatype Body<T> = Body(status: Option<string>, payload: Option<T>)

  /** One entry of `sessions`. */
  datatype Session = Session(yearStart: Option<int>, sessionId: Option<int>, sessionName: Option<string>)

  /** One value of `masterlist`. */
  datatype BillRef = BillRef(billId: Option<int>)

  /** One `texts`, `amendments` or `supplements` entry of a bill. */
  datatype Doc = Doc(url: Option<string>)

  /** The bill's `session` object. */
  datatype SessionInfo = SessionInfo(sessionName: Option<string>)

  /** The `bill` object of a `getBill` reply. */
  datatype Bill = Bill(
    billNumber: Option<string>, session: Option<SessionInfo>, passed: Option<int>,
    texts: Option<seq<Doc>>, amendments: Option<seq<Doc>>, supplements: Option<seq<Doc>>)

  /** One record of the output. */
  datatype BillDocuments = BillDocuments(
    billNumber: Option<string>, session: Option<string>, passed: Option<int>,
    texts: seq<Option<string>>, amendments: seq<Option<string>>, supplements: seq<Option<string>>)

  /** A key whose absence raises a KeyError that no one catches. */
  datatype Failure = MissingKey(key: string)

  // ---------------------------------------------------------------------
  // Requests
  // ---------------------------------------------------------------------

  /** `get_json`: the body when the request succeeded, the status code is
      not an error, the body is JSON and its `status` is "OK"; `None` on
      every other outcome (the exceptions are caught). */
  function GetJson<T>(reply: Reply<T>): Option<Body<T>> {
    match reply
    case Failed => None
    case Response(code, body) =>
      if IsErrorStatus(code) || body.None? then None
      else if body.value.status == Some("OK") then body
      else None
  }

  /** `get_sessions`: the session list, [] when the request failed. */
  function GetSessions(reply: Reply<seq<Session>>): Result<seq<Session>, Failure> {
    match GetJson(reply)
    case None => Ok([])
    case Some(data) =>
      if data.payload.None? then Err(MissingKey("sessions")) else Ok(data.payload.value)
  }

  /** `get_bills`: the master-list values after the first, which is a
      summary and not a bill; [] when the request failed. */
  function GetBills(reply: Reply<seq<BillRef>>): Result<seq<BillRef>, Failure> {
    match GetJson(reply)
    case None => Ok([])
    case Some(data) =>
      if data.payload.None? then Err(MissingKey("masterlist"))
      else
        var values := data.payload.value;
        Ok(if values == [] then [] else values[1..])
  }

  /** `get_bill_details`: the bill, `None` when the request failed. */
  function GetBillDetails(reply: Reply<Bill>): Result<Option<Bill>, Failure> {
    match GetJson(reply)
    case None => Ok(None)
    case Some(data) =>
      if data.payload.None? then Err(MissingKey("bill")) else Ok(Some(data.payload.value))
  }

  /** The `url` of each entry of an optional list, [] when the list is
      missing. */
  function Urls(docs: Option<seq<Doc>>): seq<Option<string>> {
    match docs
    case None => []
    case Some(ds) => seq(|ds|, (k: int) requires 0 <= k < |ds| => ds[k].url)
  }

  /** `extract_document_urls`. */
  function ExtractDocumentUrls(bill: Bill): BillDocuments {
    BillDocuments(
      bill.billNumber,
      match bill.session case None => None case Some(info) => info.sessionName,
      bill.passed,
      Urls(bill.texts), Urls(bill.amendments), Urls(bill.supplements))
  }

  // ---------------------------------------------------------------------
  // Selection
  // ---------------------------------------------------------------------

  /** `session.get("year_start", 0)`. */
  function YearStart(s: Session): int {
    match s.yearStart case None => 0 case Some(y) => y
  }

  /** The sessions starting in `startYear` or later, in list order. */
  function RecentSessions(sessions: seq<Session>, startYear: int): seq<Session>
    decreases |sessions|
  {
    if sessions == [] then []
    else
      var last := sessions[|sessions| - 1];
      RecentSessions(sessions[..|sessions| - 1], startYear) + (if YearStart(last) >= startYear then [last] else [])
  }

  /** The records gathered from the items `xs` in order, `f` giving each
      item's records; the first failure ends the gathering. */
  function Gather<X, Y>(xs: seq<X>, f: X -> Result<seq<Y>, Failure>): Result<seq<Y>, Failure>
    decreases |xs|
  {
    if xs == [] then Ok([])
    else
      match Gather(xs[..|xs| - 1], f)
      case Err(e) => Err(e)
      case Ok(done) =>
        match f(xs[|xs| - 1])
        case Err(e) => Err(e)
        case Ok(more) => Ok(done + more)
  }

  /** A bill's contribution: its record when its details were fetched and
      it passed (`passed == 1`), nothing otherwise. */
  function BillDocs(bill: BillRef, details: Option<int> -> Reply<Bill>): Result<seq<BillDocuments>, Failure> {
    match GetBillDetails(details(bill.billId))
    case Err(e) => Err(e)
    case Ok(None) => Ok([])
    case Ok(Some(b)) => Ok(if b.passed == Some(1) then [ExtractDocumentUrls(b)] else [])
  }

  function BillsOf(details: Option<int> -> Reply<Bill>): BillRef -> Result<seq<BillDocuments>, Failure> {
    bill => BillDocs(bill, details)
  }

  /** A session's contribution: the records of its passed bills. Its
      `session_id` and `session_name` are read first and must be present. */
  function SessionDocs(session: Session, masterlists: int -> Reply<seq<BillRef>>,
                       details: Option<int> -> Reply<Bill>): Result<seq<BillDocuments>, Failure> {
    if session.sessionId.None? then Err(MissingKey("session_id"))
    else if session.sessionName.None? then Err(MissingKey("session_name"))
    else
      match GetBills(masterlists(session.sessionId.value))
      case Err(e) => Err(e)
      case Ok(bills) => Gather(bills, BillsOf(details))
  }

  function SessionsOf(masterlists: int -> Reply<seq<BillRef>>, details: Option<int> -> Reply<Bill>)
    : Session -> Result<seq<BillDocuments>, Failure>
  {
    session => SessionDocs(session, masterlists, details)
  }

  /** What `collect_bills` writes out for the session list reply
      `sessionList` and the year `startYear`. */
  function Collect(sessionList: Reply<seq<Session>>, startYear: int, masterlists: int -> Reply<seq<BillRef>>,
                   details: Option<int> -> Reply<Bill>): Result<seq<BillDocuments>, Failure> {
    match GetSessions(sessionList)
    case Err(e) => Err(e)
    case Ok(sessions) => Gather(RecentSessions(sessions, startYear), SessionsOf(masterlists, details))
  }

  // ---------------------------------------------------------------------
  // The loops
  // ---------------------------------------------------------------------

  /** The inner loop of `collect_bills`: the passed bills of one session. */
  method CollectPassed(bills: seq<BillRef>, details: Option<int> -> Reply<Bill>)
    returns (result: Result<seq<BillDocuments>, Failure>)
    ensures result == Gather(bills, BillsOf(details))
  {
    var found: seq<BillDocuments> := [];
    for j := 0 to |bills|
      invariant Gather(bills[..j], BillsOf(details)) == Ok(found)
    {
      GatherStep(bills, j, BillsOf(details), found);
      var billDetail := GetBillDetails(details(bills[j].billId));
      if billDetail.Err? {
        return Err(billDetail.error);
      }
      if billDetail.value.Some? && billDetail.value.value.passed == Some(1) {
        found := found + [ExtractDocumentUrls(billDetail.value.value)];
      } else {
        assert found + [] == found;
      }
    }
    assert bills[..|bills|] == bills;
    result := Ok(found);
  }

  /** `collect_bills`: the sessions from `startYear` on, and within each
      the passed bills, in order. */
  method CollectBills(sessionList: Reply<seq<Session>>, startYear: int, masterlists: int -> Reply<seq<BillRef>>,
                      details: Option<int> -> Reply<Bill>) returns (result: Result<seq<BillDocuments>, Failure>)
    ensures result == Collect(sessionList, startYear, masterlists, details)
  {
    var sessions := GetSessions(sessionList);
    if sessions.Err? {
      return Err(sessions.error);
    }
    var recent := RecentSessions(sessions.value, startYear);
    var treat := SessionsOf(masterlists, details);
    var all: seq<BillDocuments> := [];
    for i := 0 to |recent|
      invariant Gather(recent[..i], treat) == Ok(all)
    {
      GatherStep(recent, i, treat, all);
      var session := recent[i];
      if session.sessionId.None? {
        return Err(MissingKey("session_id"));
      }
      if session.sessionName.None? {
        return Err(MissingKey("session_name"));
      }
      var bills := GetBills(masterlists(session.sessionId.value));
      if bills.Err? {
        return Err(bills.error);
      }
      var passed := CollectPassed(bills.value, details);
      if passed.Err? {
        return Err(passed.error);
      }
      all := all + passed.value;
    }
    assert recent[..|recent|] == recent;
    result := Ok(all);
  }

  /** One step of a gathering loop: a failing item ends the whole
      gathering with its failure, a succeeding one adds its records. */
  lemma GatherStep<X, Y>(xs: seq<X>, i: nat, f: X -> Result<seq<Y>, Failure>, done: seq<Y>)
    requires i < |xs| && Gather(xs[..i], f) == Ok(done)
    ensures f(xs[i]).Err? ==> Gather(xs, f) == Err(f(xs[i]).error)
    ensures f(xs[i]).Ok? ==> Gather(xs[..i + 1], f) == Ok(done + f(xs[i]).value)
  {
    assert xs[..i + 1][..i] == xs[..i];
    if f(xs[i]).Err? {
      GatherErrorStays(xs, i + 1, f);
    }
  }

  /** Once an item has failed, the items after it change nothing. */
  lemma {:induction false} GatherErrorStays<X, Y>(xs: seq<X>, k: nat, f: X -> Result<seq<Y>, Failure>)
    requires k <= |xs| && Gather(xs[..k], f).Err?
    ensures Gather(xs, f) == Gather(xs[..k], f)
    decreases |xs| - k
  {
    if k < |xs| {
      assert xs[..k + 1][..k] == xs[..k];
      GatherErrorStays(xs, k + 1, f);
    } else {
      assert xs[..k] == xs;
    }
  }

  /** The gathering fails exactly when some item fails, and then with the
      failure of the first item that fails; otherwise it holds the records
      of the items in order. */
  lemma {:induction false} GatherOutcome<X, Y>(xs: seq<X>, f: X -> Result<seq<Y>, Failure>) returns (i: nat)
    ensures Gather(xs, f).Err? <==> exists j :: 0 <= j < |xs| && f(xs[j]).Err?
    ensures Gather(xs, f).Err? ==>
              i < |xs| && f(xs[i]).Err? && Gather(xs, f).error == f(xs[i]).error
              && forall j :: 0 <= j < i ==> f(xs[j]).Ok?
    decreases |xs|
  {
    i := 0;
    if xs != [] {
      var n := |xs| - 1;
      var init := xs[..n];
      i := GatherOutcome(init, f);
      assert forall j :: 0 <= j < n ==> init[j] == xs[j];
      if Gather(init, f).Ok? {
        i := n;
      }
    }
  }

  /** Two stretches of items gather into the records of the first followed
      by those of the second. */
  lemma {:induction false} GatherConcat<X, Y>(a: seq<X>, b: seq<X>, f: X -> Result<seq<Y>, Failure>)
    requires Gather(a, f).Ok? && Gather(b, f).Ok?
    ensures Gather(a + b, f) == Ok(Gather(a, f).value + Gather(b, f).value)
    decreases |b|
  {
    if b == [] {
      assert a + b == a;
      assert Gather(a, f).value + [] == Gather(a, f).value;
    } else {
      var n := |b| - 1;
      assert (a + b)[..|a + b| - 1] == a + b[..n];
      assert (a + b)[|a + b| - 1] == b[n];
      assert Gather(b[..n], f).Ok?;
      GatherConcat(a, b[..n], f);
      var x, y, z := Gather(a, f).value, Gather(b[..n], f).value, f(b[n]).value;
      assert x + y + z == x + (y + z);
    }
  }

  // ---------------------------------------------------------------------
  // Properties
  // ---------------------------------------------------------------------

  /** `get_json` gives the data exactly when the request and the decoding
      succeeded, the code is not an error and the status is "OK". */
  lemma GetJsonRule<T>(reply: Reply<T>)
    ensures GetJson(reply).Some? <==>
              reply.Response? && !IsErrorStatus(reply.code) && reply.body.Some? && reply.body.value.status == Some("OK")
    ensures GetJson(reply).Some? ==> GetJson(reply) == reply.body
  {
  }

  /** A failed session-list or master-list request gives no sessions and
      no bills, and a failed bill request gives no bill. */
  lemma FailedRequestsGiveNothing(sessions: Reply<seq<Session>>, bills: Reply<seq<BillRef>>, bill: Reply<Bill>)
    requires GetJson(sessions).None? && GetJson(bills).None? && GetJson(bill).None?
    ensures GetSessions(sessions) == Ok([]) && GetBills(bills) == Ok([]) && GetBillDetails(bill) == Ok(None)
  {
  }

  /** The bills of a session are its master-list values but the first:
      one fewer, in their order, whatever the first holds. */
  lemma GetBillsDropsFirst(code: int, summary: BillRef, rest: seq<BillRef>)
    requires !IsErrorStatus(code)
    ensures GetBills(Response(code, Some(Body(Some("OK"), Some([summary] + rest))))) == Ok(rest)
  {
    assert ([summary] + rest)[1..] == rest;
  }

  /** A session is kept exactly when it starts in `startYear` or later,
      one without a start year counting as year 0. */
  lemma RecentSessionsSingle(s: Session, startYear: int)
    ensures RecentSessions([s], startYear) == if YearStart(s) >= startYear then [s] else []
    ensures s.yearStart.None? ==> (RecentSessions([s], startYear) == [s] <==> startYear <= 0)
  {
    assert [s][..0] == [];
  }

  /** Sessions are filtered one at a time, keeping their order. */
  lemma {:induction false} RecentSessionsConcat(a: seq<Session>, b: seq<Session>, startYear: int)
    ensures RecentSessions(a + b, startYear) == RecentSessions(a, startYear) + RecentSessions(b, startYear)
    decreases |b|
  {
    if b == [] {
      assert a + b == a;
    } else {
      var n := |b| - 1;
      assert (a + b)[..|a + b| - 1] == a + b[..n];
      RecentSessionsConcat(a, b[..n], startYear);
    }
  }

  /** Every kept session starts in `startYear` or later, and there are no
      more of them than sessions. */
  lemma {:induction false} RecentSessionsKept(sessions: seq<Session>, startYear: int)
    ensures |RecentSessions(sessions, startYear)| <= |sessions|
    ensures forall k :: 0 <= k < |RecentSessions(sessions, startYear)| ==>
              YearStart(RecentSessions(sessions, startYear)[k]) >= startYear
              && RecentSessions(sessions, startYear)[k] in sessions
    decreases |sessions|
  {
    if sessions != [] {
      var n := |sessions| - 1;
      RecentSessionsKept(sessions[..n], startYear);
      assert forall s :: s in sessions[..n] ==> s in sessions;
    }
  }

  /** A bill contributes exactly one record when its details were fetched
      and say it passed, and none when the request failed or it did not
      pass. */
  lemma BillDocsRule(bill: BillRef, details: Option<int> -> Reply<Bill>)
    requires GetBillDetails(details(bill.billId)).Ok?
    ensures var d := GetBillDetails(details(bill.billId)).value;
            BillDocs(bill, details) ==
              if d.Some? && d.value.passed == Some(1) then Ok([ExtractDocumentUrls(d.value)]) else Ok([])
  {
  }

  /** `urls` are the `url` fields of the entries of `docs`, one per entry
      in their order, or none when the list is missing. */
  predicate UrlsOfList(urls: seq<Option<string>>, docs: Option<seq<Doc>>) {
    match docs
    case None => urls == []
    case Some(ds) => |urls| == |ds| && forall k :: 0 <= k < |ds| ==> urls[k] == ds[k].url
  }

  /** The document lists of a record are the `url` fields of the bill's
      lists; the session name is `None` when the bill has no `session`
      object; the number and the `passed` flag are copied. */
  lemma ExtractDocumentUrlsShape(bill: Bill)
    ensures var r := ExtractDocumentUrls(bill);
            UrlsOfList(r.texts, bill.texts) && UrlsOfList(r.amendments, bill.amendments)
            && UrlsOfList(r.supplements, bill.supplements)
            && (bill.session.None? ==> r.session.None?)
            && (bill.session.Some? ==> r.session == bill.session.value.sessionName)
            && r.billNumber == bill.billNumber && r.passed == bill.passed
  {
  }

  /** When nothing fails, the records are those of the recent sessions in
      session order, each session's in bill order. */
  lemma CollectInOrder(sessionList: Reply<seq<Session>>, startYear: int, masterlists: int -> Reply<seq<BillRef>>,
                       details: Option<int> -> Reply<Bill>, a: seq<Session>, b: seq<Session>)
    requires GetSessions(sessionList).Ok?
    requires RecentSessions(GetSessions(sessionList).value, startYear) == a + b
    requires Gather(a, SessionsOf(masterlists, details)).Ok? && Gather(b, SessionsOf(masterlists, details)).Ok?
    ensures Collect(sessionList, startYear, masterlists, details) ==
              Ok(Gather(a, SessionsOf(masterlists, details)).value + Gather(b, SessionsOf(masterlists, details)).value)
  {
    GatherConcat(a, b, SessionsOf(masterlists, details));
  }
}
