/** The New York executive-order scraper of
    `executiveOrderScrapers/ny_EOs.py`: the paginated walk over the current
    orders listing, the extraction of one order per listing block, and the
    selection of past orders by file type and issue year. The site is given
    as data: the listing as the sequence of what each page yields, the past
    page as its list of PDF anchors. */
module NyOrders {
  import opened Wrappers
  import opened Strings

  const BaseUrl := "https://www.governor.ny.gov"
  const CurrentPage := BaseUrl + "/executiveorders"
  const PastPage := BaseUrl + "/past-executive-orders"

  /** One scraped order; `pdfLink` and `date` are JSON `null` when absent. */
  datatype Order = Order(title: string, pdfLink: Option<string>, date: Option<string>)

  // ---------------------------------------------------------------------
  // Current orders
  // ---------------------------------------------------------------------

  /** One `.views-row` block: the text of its `.content-title a` element, the
      `href` of its `.content-document a` element and the text of its
      `.date` element, each `None` when the element is missing. */
  datatype Block = Block(title: Option<string>, link: Option<string>, date: Option<string>)

  /** What loading one listing page gives: `driver.get` raised, the
      ten-second wait for `.views-row` blocks timed out, or the blocks were
      found. */
  datatype PageResult = Failed | TimedOut | Loaded(blocks: seq<Block>)

  /** The URL of listing page `page`. */
  function PageUrl(page: nat): string {
    CurrentPage + "?page=" + Decimal(page)
  }

  /** Different pages are requested under different URLs. */
  lemma PageUrlsDistinct(i: nat, j: nat)
    requires PageUrl(i) == PageUrl(j)
    ensures i == j
  {
    var prefix := CurrentPage + "?page=";
    assert PageUrl(i)[|prefix|..] == Decimal(i);
    assert PageUrl(j)[|prefix|..] == Decimal(j);
    DecimalValue(i);
    DecimalValue(j);
  }

  /** Page `page` of the listing; pages past the last have no blocks, so the
      wait for them times out. */
  function PageAt(site: seq<PageResult>, page: nat): PageResult {
    if page < |site| then site[page] else TimedOut
  }

  /** A page on which the walk stops: it failed to load, timed out or had
      no block. */
  predicate EndsWalk(r: PageResult) {
    !r.Loaded? || r.blocks == []
  }

  /** The first page, from `page` on, on which the walk stops. */
  function StopFrom(site: seq<PageResult>, page: nat): nat
    requires page <= |site|
    decreases |site| - page
  {
    if EndsWalk(PageAt(site, page)) then page else StopFrom(site, page + 1)
  }

  /** The page on which the walk of the listing stops. */
  function StopPage(site: seq<PageResult>): nat {
    StopFrom(site, 0)
  }

  lemma {:induction false} StopFromShape(site: seq<PageResult>, page: nat)
    requires page <= |site|
    ensures page <= StopFrom(site, page) <= |site|
    ensures EndsWalk(PageAt(site, StopFrom(site, page)))
    ensures forall p :: page <= p < StopFrom(site, page) ==> !EndsWalk(PageAt(site, p))
    decreases |site| - page
  {
    if !EndsWalk(PageAt(site, page)) {
      StopFromShape(site, page + 1);
    }
  }

  /** The walk stops on the first page that times out or has no block, and
      at the latest on the page right after the last one. */
  lemma StopPageShape(site: seq<PageResult>)
    ensures StopPage(site) <= |site|
    ensures EndsWalk(PageAt(site, StopPage(site)))
    ensures forall p :: 0 <= p < StopPage(site) ==> !EndsWalk(PageAt(site, p))
  {
    StopFromShape(site, 0);
  }

  /** Before the stop page, a page ends the walk only if it is the stop
      page itself. */
  lemma StopsHere(site: seq<PageResult>, page: nat)
    requires page <= StopPage(site)
    ensures EndsWalk(PageAt(site, page)) <==> page == StopPage(site)
  {
    StopPageShape(site);
  }

  /** One block: skipped without a title; otherwise the stripped title, the
      link and the stripped date. */
  function ExtractBlock(b: Block): Option<Order> {
    match b.title
    case None => None
    case Some(t) =>
      var date := match b.date case None => None case Some(d) => Some(Strip(d));
      Some(Order(Strip(t), b.link, date))
  }

  function Present(o: Option<Order>): seq<Order> {
    match o
    case None => []
    case Some(x) => [x]
  }

  /** The orders of the blocks of one page, in block order. */
  function PageOrders(blocks: seq<Block>): seq<Order>
    decreases |blocks|
  {
    if blocks == [] then []
    else PageOrders(blocks[..|blocks| - 1]) + Present(ExtractBlock(blocks[|blocks| - 1]))
  }

  function BlocksOf(r: PageResult): seq<Block> {
    if r.Loaded? then r.blocks else []
  }

  /** The orders of pages `0 .. page - 1`, in page order. */
  function OrdersBefore(site: seq<PageResult>, page: nat): seq<Order>
    decreases page
  {
    if page == 0 then []
    else OrdersBefore(site, page - 1) + PageOrders(BlocksOf(PageAt(site, page - 1)))
  }

  /** The URLs of pages `0 .. page - 1`, in the order they are loaded. */
  function PageUrls(page: nat): seq<string>
    decreases page
  {
    if page == 0 then [] else PageUrls(page - 1) + [PageUrl(page - 1)]
  }

  /** What `scrape_current_orders` collects from the listing. */
  function CurrentOrders(site: seq<PageResult>): seq<Order> {
    OrdersBefore(site, StopPage(site))
  }

  /** The walk ends in an exception: the page it stops on failed to load.
      The exception leaves through the `finally`, and nothing is saved. */
  predicate WalkRaises(site: seq<PageResult>) {
    PageAt(site, StopPage(site)).Failed?
  }

  /** The walk raises exactly when the first page that ends it failed to
      load. */
  lemma WalkRaisesRule(site: seq<PageResult>)
    ensures WalkRaises(site) <==>
              exists p :: 0 <= p < |site| && site[p].Failed? && forall q :: 0 <= q < p ==> !EndsWalk(site[q])
  {
    StopPageShape(site);
    var stop := StopPage(site);
    if WalkRaises(site) {
      assert stop < |site| && site[stop].Failed?;
      assert forall q :: 0 <= q < stop ==> PageAt(site, q) == site[q];
    }
    if p :| 0 <= p < |site| && site[p].Failed? && forall q :: 0 <= q < p ==> !EndsWalk(site[q]) {
      assert PageAt(site, p) == site[p];
      assert stop == p;
    }
  }

  /** `scrape_current_orders`: load pages 0, 1, ... until one fails, times
      out or has no block, and extract an order from every block with a
      title. `saved` is what is written to the output file, `None` when the
      walk raised; `requested` lists the URLs loaded, the last one being
      the page that ended the walk. */
  method ScrapeCurrentOrders(site: seq<PageResult>) returns (saved: Option<seq<Order>>, requested: seq<string>)
    ensures saved == if WalkRaises(site) then None else Some(CurrentOrders(site))
    ensures requested == PageUrls(StopPage(site) + 1)
  {
    var orders: seq<Order> := [];
    requested := [];
    var page := 0;
    while true
      invariant page <= StopPage(site)
      invariant orders == OrdersBefore(site, page)
      invariant requested == PageUrls(page)
      decreases StopPage(site) - page
    {
      requested := requested + [PageUrl(page)];
      var result := PageAt(site, page);
      StopsHere(site, page);
      if result.Failed? {
        return None, requested;
      }
      if result.TimedOut? {
        break;
      }
      var blocks := result.blocks;
      if blocks == [] {
        break;
      }
      var found := ExtractPage(blocks);
      orders := orders + found;
      page := page + 1;
    }
    saved := Some(orders);
  }

  /** The loop over the blocks of one loaded page. */
  method ExtractPage(blocks: seq<Block>) returns (found: seq<Order>)
    ensures found == PageOrders(blocks)
  {
    found := [];
    var j := 0;
    while j < |blocks|
      invariant j <= |blocks|
      invariant found == PageOrders(blocks[..j])
    {
      assert blocks[..j + 1][..j] == blocks[..j];
      var order := ExtractBlock(blocks[j]);
      if order.Some? {
        found := found + [order.value];
      }
      j := j + 1;
    }
    assert blocks[..j] == blocks;
  }

  /** Every order of a page comes from a titled block: its title and date
      are stripped, and a page gives at most one order per block. */
  lemma {:induction false} PageOrdersShape(blocks: seq<Block>)
    ensures |PageOrders(blocks)| <= |blocks|
    ensures forall k :: 0 <= k < |PageOrders(blocks)| ==>
              IsStripped(PageOrders(blocks)[k].title)
              && (PageOrders(blocks)[k].date.Some? ==> IsStripped(PageOrders(blocks)[k].date.value))
    decreases |blocks|
  {
    if blocks != [] {
      var b := blocks[|blocks| - 1];
      PageOrdersShape(blocks[..|blocks| - 1]);
      if b.title.Some? {
        var _, _ := StripShape(b.title.value);
        if b.date.Some? {
          var _, _ := StripShape(b.date.value);
        }
      }
    }
  }

  /** One block gives an order exactly when it has a title. The order
      holds the stripped title, the block's link as it is (`None` when the
      block has no document link), and the stripped date, `None` when the
      block has no date. */
  lemma PageOrdersSingle(b: Block)
    ensures |PageOrders([b])| == if b.title.Some? then 1 else 0
    ensures b.title.Some? ==>
              var o := PageOrders([b])[0];
              o.title == Strip(b.title.value) && o.pdfLink == b.link
              && o.date.None? == b.date.None? && (b.date.Some? ==> o.date.value == Strip(b.date.value))
  {
    assert [b][..0] == [];
  }

  /** Blocks are handled independently and in order. */
  lemma {:induction false} PageOrdersConcat(a: seq<Block>, b: seq<Block>)
    ensures PageOrders(a + b) == PageOrders(a) + PageOrders(b)
    decreases |b|
  {
    if b == [] {
      assert a + b == a;
    } else {
      assert (a + b)[..|a + b| - 1] == a + b[..|b| - 1];
      PageOrdersConcat(a, b[..|b| - 1]);
    }
  }

  /** The number of blocks with a title. */
  function TitledCount(blocks: seq<Block>): nat
    decreases |blocks|
  {
    if blocks == [] then 0
    else TitledCount(blocks[..|blocks| - 1]) + (if blocks[|blocks| - 1].title.Some? then 1 else 0)
  }

  /** Exactly the blocks with a title give an order. */
  lemma {:induction false} PageOrdersCount(blocks: seq<Block>)
    ensures |PageOrders(blocks)| == TitledCount(blocks)
    decreases |blocks|
  {
    if blocks != [] {
      PageOrdersCount(blocks[..|blocks| - 1]);
    }
  }

  /** Orders only accumulate: the orders of the first `k` pages are a
      prefix of those of the first `m >= k` pages. */
  lemma OrdersAccumulate(site: seq<PageResult>, k: nat, m: nat)
    requires k <= m
    ensures OrdersBefore(site, k) <= OrdersBefore(site, m)
  {
    forall p: nat
      ensures OrdersBefore(site, p) <= OrdersBefore(site, p + 1)
    {
      PrefixExtends(OrdersBefore(site, p), OrdersBefore(site, p), PageOrders(BlocksOf(PageAt(site, p))));
    }
    PrefixesGrow((p: nat) => OrdersBefore(site, p), k, m);
  }

  /** Each value a prefix of the next: each a prefix of every later one. */
  lemma {:induction false} PrefixesGrow<T>(f: nat -> seq<T>, k: nat, m: nat)
    requires k <= m
    requires forall p: nat :: f(p) <= f(p + 1)
    ensures f(k) <= f(m)
    decreases m - k
  {
    if k < m {
      PrefixesGrow(f, k + 1, m);
      PrefixTransitive(f(k), f(k + 1), f(m));
    }
  }

  lemma PrefixTransitive<T>(a: seq<T>, b: seq<T>, c: seq<T>)
    requires a <= b && b <= c
    ensures a <= c
  {
    assert c[..|a|] == c[..|b|][..|a|];
  }

  lemma PrefixExtends<T>(a: seq<T>, b: seq<T>, c: seq<T>)
    requires a <= b
    ensures a <= b + c
  {
    assert (b + c)[..|a|] == b[..|a|];
  }

  lemma {:induction false} OrdersBeforeAgree(a: seq<PageResult>, b: seq<PageResult>, page: nat)
    requires forall p :: 0 <= p < page ==> PageAt(a, p) == PageAt(b, p)
    ensures OrdersBefore(a, page) == OrdersBefore(b, page)
    decreases page
  {
    if page > 0 {
      OrdersBeforeAgree(a, b, page - 1);
    }
  }

  /** Pages after the one that ends the walk are never read: two listings
      that agree up to that page give the same orders and the same
      requests. */
  lemma LaterPagesIrrelevant(a: seq<PageResult>, b: seq<PageResult>)
    requires forall p :: 0 <= p <= StopPage(a) ==> PageAt(a, p) == PageAt(b, p)
    ensures StopPage(b) == StopPage(a)
    ensures CurrentOrders(b) == CurrentOrders(a)
  {
    StopPageShape(a);
    StopPageShape(b);
    OrdersBeforeAgree(a, b, StopPage(a));
  }

  /** Three full pages of five titled blocks, then an empty one: fifteen
      orders, and four pages requested. */
  lemma ThreeFullPages(blocks: seq<Block>)
    requires |blocks| == 5 && forall k :: 0 <= k < 5 ==> blocks[k].title.Some?
    ensures var site := [Loaded(blocks), Loaded(blocks), Loaded(blocks), Loaded([])];
            StopPage(site) == 3 && |CurrentOrders(site)| == 15 && |PageUrls(StopPage(site) + 1)| == 4
  {
    var site := [Loaded(blocks), Loaded(blocks), Loaded(blocks), Loaded([])];
    assert StopFrom(site, 3) == 3;
    assert StopFrom(site, 2) == 3;
    assert StopFrom(site, 1) == 3;
    assert StopFrom(site, 0) == 3;
    assert TitledCount(blocks[..0]) == 0;
    assert blocks[..1][..0] == blocks[..0] && TitledCount(blocks[..1]) == 1;
    assert blocks[..2][..1] == blocks[..1] && TitledCount(blocks[..2]) == 2;
    assert blocks[..3][..2] == blocks[..2] && TitledCount(blocks[..3]) == 3;
    assert blocks[..4][..3] == blocks[..3] && TitledCount(blocks[..4]) == 4;
    assert blocks[..5] == blocks && blocks[..4] == blocks[..|blocks| - 1];
    assert TitledCount(blocks) == 5;
    PageOrdersCount(blocks);
    assert |OrdersBefore(site, 1)| == 5;
    assert |OrdersBefore(site, 2)| == 10;
    assert |OrdersBefore(site, 3)| == 15;
    assert |PageUrls(1)| == 1 && |PageUrls(2)| == 2 && |PageUrls(3)| == 3;
  }

  // ---------------------------------------------------------------------
  // Past orders
  // ---------------------------------------------------------------------

  /** One `p a[href$='.pdf']` anchor of the past-orders page: its text and
      its `href` (`None` when the attribute is missing). */
  datatype Link = Link(text: string, href: Option<string>)

  predicate IsAsciiLetter(c: char) {
    'A' <= c <= 'Z' || 'a' <= c <= 'z'
  }

  /** The group of `issued\s+([A-Za-z]+\s+\d{1,2},\s+\d{4})` when the
      pattern matches at position `i` of `s`. The character classes are
      disjoint, so each greedy run is taken whole. */
  function IssuedAt(s: string, i: nat): Option<string>
    requires i <= |s|
  {
    if !(i + 6 <= |s| && s[i..i + 6] == "issued") then None
    else
      var a := Span(s, i + 6, IsSpace);
      var b := Span(s, a, IsAsciiLetter);
      var c := Span(s, b, IsSpace);
      var d := Span(s, c, IsDigit);
      if a == i + 6 || b == a || c == b || !(1 <= d - c <= 2) || d == |s| || s[d] != ',' then None
      else
        var e := Span(s, d + 1, IsSpace);
        if e == d + 1 || e + 4 > |s| || Span(s, e, IsDigit) < e + 4 then None
        else Some(s[a..e + 4])
  }

  /** The value at the leftmost position from `i` up to `n` where `at`
      gives one. */
  function FirstHit<T>(at: nat -> Option<T>, i: nat, n: nat): Option<T>
    decreases n - i
  {
    if at(i).Some? then at(i)
    else if i >= n then None
    else FirstHit(at, i + 1, n)
  }

  /** `re.search`: the match that starts leftmost, from position `i` on. */
  function SearchIssued(s: string, i: nat): Option<string>
    requires i <= |s|
  {
    FirstHit((q: nat) => if q <= |s| then IssuedAt(s, q) else None, i, |s|)
  }

  /** The issue date quoted in a title, if any. */
  function IssuedDate(title: string): Option<string> {
    SearchIssued(title, 0)
  }

  /** The search finds the value at the leftmost position that has one,
      and finds nothing exactly when no position has one. */
  lemma {:induction false} FirstHitLeftmost<T>(at: nat -> Option<T>, i: nat, n: nat) returns (k: nat)
    requires i <= n
    ensures FirstHit(at, i, n).None? <==> forall q :: i <= q <= n ==> at(q).None?
    ensures FirstHit(at, i, n).Some? ==>
              i <= k <= n && at(k) == FirstHit(at, i, n) && forall q :: i <= q < k ==> at(q).None?
    decreases n - i
  {
    k := i;
    if at(i).None? && i < n {
      k := FirstHitLeftmost(at, i + 1, n);
    }
  }

  /** The date found is the group of the leftmost match `k`; there is
      none exactly when the pattern matches nowhere. */
  lemma SearchIssuedLeftmost(s: string, i: nat) returns (k: nat)
    requires i <= |s|
    ensures SearchIssued(s, i).None? <==> forall q :: i <= q <= |s| ==> IssuedAt(s, q).None?
    ensures SearchIssued(s, i).Some? ==>
              i <= k <= |s| && IssuedAt(s, k) == SearchIssued(s, i)
              && forall q :: i <= q < k ==> IssuedAt(s, q).None?
  {
    var at := (q: nat) => if q <= |s| then IssuedAt(s, q) else None;
    k := FirstHitLeftmost(at, i, |s|);
    assert forall q :: i <= q <= |s| ==> at(q) == IssuedAt(s, q);
  }

  /** Where the pieces of `pre + "issued " + date + post` sit. */
  lemma IssueLayout(pre: string, date: string, post: string)
    ensures var s := pre + "issued " + date + post;
            var i := |pre|;
            |s| == i + 7 + |date| + |post| && s[i..i + 6] == "issued" && s[i + 6] == ' '
            && s[i + 7..i + 7 + |date|] == date
  {
    var s := pre + "issued " + date + post;
    var i := |pre|;
    assert s[i..i + 6] == "issued";
    assert s[i + 7..i + 7 + |date|] == date;
  }

  /** The runs the "issued" pattern reads after the word, in a text that
      holds a space, letters, a space, one or two digits, a comma and a
      space, and four digits from `i + 6`. */
  lemma IssueSpans(s: string, i: nat, a: nat, b: nat, c: nat, d: nat, e: nat, f: nat)
    requires a == i + 7 && a < b && c == b + 1 && c < d && e == d + 2 && f == e + 4 && f <= |s|
    requires s[i + 6] == ' ' && s[b] == ' ' && s[d] == ',' && s[d + 1] == ' '
    requires forall k :: 0 <= k < b - a ==> IsAsciiLetter(s[a..b][k])
    requires forall k :: 0 <= k < d - c ==> IsDigit(s[c..d][k])
    requires forall k :: 0 <= k < f - e ==> IsDigit(s[e..f][k])
    ensures Span(s, i + 6, IsSpace) == a && Span(s, a, IsAsciiLetter) == b && Span(s, b, IsSpace) == c
    ensures Span(s, c, IsDigit) == d && Span(s, d + 1, IsSpace) == e && Span(s, e, IsDigit) >= f
  {
    assert forall k :: a <= k < b ==> s[k] == s[a..b][k - a];
    assert forall k :: c <= k < d ==> s[k] == s[c..d][k - c];
    assert forall k :: e <= k < f ==> s[k] == s[e..f][k - e];
    SpanStops(s, i + 6, a, IsSpace);
    SpanStops(s, a, b, IsAsciiLetter);
    SpanStops(s, b, c, IsSpace);
    SpanStops(s, c, d, IsDigit);
    SpanStops(s, d + 1, e, IsSpace);
    SpanReaches(s, e, f, IsDigit);
  }

  /** With those runs, the pattern matches at `i` and its group runs from
      the letters to the last year digit. */
  lemma IssueMatch(s: string, i: nat, a: nat, b: nat, c: nat, d: nat, e: nat, f: nat)
    requires a == i + 7 && a < b && c == b + 1 && c < d <= c + 2 && e == d + 2 && f == e + 4 && f <= |s|
    requires s[i..i + 6] == "issued" && s[d] == ','
    requires Span(s, i + 6, IsSpace) == a && Span(s, a, IsAsciiLetter) == b && Span(s, b, IsSpace) == c
    requires Span(s, c, IsDigit) == d && Span(s, d + 1, IsSpace) == e && Span(s, e, IsDigit) >= f
    ensures IssuedAt(s, i) == Some(s[a..f])
  {
  }

  /** The date as `%B %d, %Y` writes it, with `name` for the month and the
      day unpadded. */
  function WrittenDate(name: string, d: nat, y: nat): string {
    name + " " + Decimal(d) + ", " + Decimal(y)
  }

  /** "issued" followed by a space and a date of a name in ASCII letters,
      a day of one or two digits and a four-digit year matches the
      pattern, wherever it stands and whatever follows, and its group is
      the date. */
  lemma IssuedAtWellFormed(pre: string, name: string, d: nat, y: nat, post: string)
    requires name != [] && forall k :: 0 <= k < |name| ==> IsAsciiLetter(name[k])
    requires 1 <= d <= 99 && 1000 <= y <= 9999
    ensures IssuedAt(pre + "issued " + WrittenDate(name, d, y) + post, |pre|) == Some(WrittenDate(name, d, y))
  {
    var day, year := Decimal(d), Decimal(y);
    DecimalWidth(d);
    DecimalWidth(y);
    var date := WrittenDate(name, d, y);
    DateLayout(name, day, year);
    IssueLayout(pre, date, post);
    var s := pre + "issued " + date + post;
    var i := |pre|;
    var a := i + 7;
    var b := a + |name|;
    var d' := b + 1 + |day|;
    var f := d' + 2 + |year|;
    assert s[a..f] == date;
    assert s[a..b] == date[..|name|];
    assert s[b + 1..d'] == date[|name| + 1..|name| + 1 + |day|];
    assert s[d' + 2..f] == date[|name| + 1 + |day| + 2..];
    assert s[b] == date[|name|] && s[d'] == date[|name| + 1 + |day|] && s[d' + 1] == date[|name| + 2 + |day|];
    IssueSpans(s, i, a, b, b + 1, d', d' + 2, f);
    IssueMatch(s, i, a, b, b + 1, d', d' + 2, f);
  }

  /** A title whose leftmost match of the pattern is a well-formed date
      quotes that date. */
  lemma IssuedDateWellFormed(title: string, pre: string, name: string, d: nat, y: nat, post: string)
    requires title == pre + "issued " + WrittenDate(name, d, y) + post
    requires name != [] && forall k :: 0 <= k < |name| ==> IsAsciiLetter(name[k])
    requires 1 <= d <= 99 && 1000 <= y <= 9999
    requires forall q :: 0 <= q < |pre| ==> IssuedAt(title, q).None?
    ensures IssuedDate(title) == Some(WrittenDate(name, d, y))
  {
    IssuedAtWellFormed(pre, name, d, y, post);
    var k := SearchIssuedLeftmost(title, 0);
    assert IssuedAt(title, |pre|).Some?;
  }

  /** A date in the proleptic Gregorian calendar. */
  datatype CivilDate = CivilDate(year: nat, month: nat, day: nat)

  predicate IsLeapYear(y: nat) {
    y % 4 == 0 && (y % 100 != 0 || y % 400 == 0)
  }

  function DaysInMonth(y: nat, m: nat): nat
    requires 1 <= m <= 12
  {
    if m == 2 then (if IsLeapYear(y) then 29 else 28)
    else if m == 4 || m == 6 || m == 9 || m == 11 then 30
    else 31
  }

  /** A date `datetime` accepts: year 1 to 9999, a month, a day of it. */
  predicate ValidDate(d: CivilDate) {
    1 <= d.year <= 9999 && 1 <= d.month <= 12 && 1 <= d.day <= DaysInMonth(d.year, d.month)
  }

  /** The full English month names, in lower case. */
  function MonthName(m: nat): string
    requires 1 <= m <= 12
  {
    ["january", "february", "march", "april", "may", "june", "july",
     "august", "september", "october", "november", "december"][m - 1]
  }

  /** The month a lower-case full month name denotes. */
  function MonthNumber(name: string): Option<nat> {
    if name == "january" then Some(1)
    else if name == "february" then Some(2)
    else if name == "march" then Some(3)
    else if name == "april" then Some(4)
    else if name == "may" then Some(5)
    else if name == "june" then Some(6)
    else if name == "july" then Some(7)
    else if name == "august" then Some(8)
    else if name == "september" then Some(9)
    else if name == "october" then Some(10)
    else if name == "november" then Some(11)
    else if name == "december" then Some(12)
    else None
  }

  predicate NotSpace(c: char) {
    !IsSpace(c)
  }

  /** `datetime.strptime(s, "%B %d, %Y")`, `None` where it raises
      `ValueError`: a full month name in any case, whitespace, a day of one
      or two digits and a comma, whitespace, a four-digit year, nothing
      after it, and the day must exist in that month of that year. */
  function ParseDate(s: string): Option<CivilDate> {
    var a := Span(s, 0, NotSpace);
    match MonthNumber(Lower(s[..a]))
    case None => None
    case Some(month) => ParseDayYear(s, a, month)
  }

  /** The rest of `ParseDate` once the month name, which ends at `a`, has
      been read as `month`. */
  function ParseDayYear(s: string, a: nat, month: nat): Option<CivilDate>
    requires a <= |s|
  {
    var b := Span(s, a, IsSpace);
    var c := Span(s, b, IsDigit);
    if b == a || !(1 <= c - b <= 2) || c == |s| || s[c] != ',' then None
    else
      var e := Span(s, c + 1, IsSpace);
      if e == c + 1 || e + 4 != |s| || Span(s, e, IsDigit) != |s| then None
      else
        SpanShape(s, b, IsDigit);
        SpanShape(s, e, IsDigit);
        var day := DigitsValue(s[b..c]);
        var year := DigitsValue(s[e..]);
        var date := CivilDate(year, month, day);
        if ValidDate(date) then Some(date) else None
  }

  /** Each month's name denotes that month, and is made of lower-case
      ASCII letters. */
  lemma MonthNameNumber(m: nat)
    requires 1 <= m <= 12
    ensures MonthNumber(MonthName(m)) == Some(m)
    ensures forall k :: 0 <= k < |MonthName(m)| ==> 'a' <= MonthName(m)[k] <= 'z'
  {
  }

  /** A name that denotes a month is that month's name, and the month is
      one of the twelve. */
  lemma MonthNumberName(name: string)
    ensures MonthNumber(name).Some? ==> 1 <= MonthNumber(name).value <= 12 && MonthName(MonthNumber(name).value) == name
  {
  }

  /** A character that lowers to a lower-case ASCII letter is an ASCII
      letter, and so not whitespace. */
  lemma LowersToLetter(ch: char)
    requires 'a' <= LowerChar(ch) <= 'z'
    ensures IsAsciiLetter(ch) && NotSpace(ch)
  {
    if !('A' <= ch <= 'Z') {
      assert LowerChar(ch) == ch;
    }
  }

  /** A name that lowers to a word of lower-case ASCII letters is made of
      ASCII letters and has no whitespace. */
  lemma LowersToWord(name: string, word: string)
    requires Lower(name) == word && forall k :: 0 <= k < |word| ==> 'a' <= word[k] <= 'z'
    ensures |name| == |word|
    ensures forall k :: 0 <= k < |name| ==> IsAsciiLetter(name[k]) && NotSpace(name[k])
  {
    LowerShape(name);
    forall k | 0 <= k < |name|
      ensures IsAsciiLetter(name[k]) && NotSpace(name[k])
    {
      assert LowerChar(name[k]) == word[k];
      LowersToLetter(name[k]);
    }
  }

  /** Where the pieces of `name + " " + day + ", " + year` sit. */
  lemma DateLayout(name: string, day: string, year: string)
    ensures var s := name + " " + day + ", " + year;
            var a, c := |name|, |name| + 1 + |day|;
            |s| == c + 2 + |year| && s[a] == ' ' && s[c] == ',' && s[c + 1] == ' '
            && s[..a] == name && s[a + 1..c] == day && s[c + 2..] == year
  {
    var s := name + " " + day + ", " + year;
    var a, c := |name|, |name| + 1 + |day|;
    assert s[..a] == name;
    assert s[a + 1..c] == day;
    assert s[c + 2..] == year;
  }

  /** The runs `ParseDate` reads in a text laid out as a month name, a
      space, a day, a comma and a space, and a year. */
  lemma DateSpans(s: string, a: nat, b: nat, c: nat, e: nat)
    requires b == a + 1 && b < c && e == c + 2 && e < |s|
    requires forall k :: 0 <= k < a ==> NotSpace(s[..a][k])
    requires s[a] == ' ' && s[c] == ',' && s[c + 1] == ' '
    requires forall k :: 0 <= k < c - b ==> IsDigit(s[b..c][k])
    requires forall k :: 0 <= k < |s| - e ==> IsDigit(s[e..][k])
    ensures Span(s, 0, NotSpace) == a && Span(s, a, IsSpace) == b && Span(s, b, IsDigit) == c
    ensures Span(s, c + 1, IsSpace) == e && Span(s, e, IsDigit) == |s|
  {
    assert forall k :: 0 <= k < a ==> s[k] == s[..a][k];
    assert forall k :: b <= k < c ==> s[k] == s[b..c][k - b];
    assert forall k :: e <= k < |s| ==> s[k] == s[e..][k - e];
    SpanStops(s, 0, a, NotSpace);
    SpanStops(s, a, b, IsSpace);
    SpanStops(s, b, c, IsDigit);
    SpanStops(s, c + 1, e, IsSpace);
    SpanStops(s, e, |s|, IsDigit);
  }

  lemma DayYearRoundTrip(name: string, m: nat, d: nat, y: nat)
    requires forall k :: 0 <= k < |name| ==> NotSpace(name[k])
    requires 1 <= m <= 12 && 1000 <= y <= 9999 && 1 <= d <= DaysInMonth(y, m)
    ensures var s := name + " " + Decimal(d) + ", " + Decimal(y);
            Span(s, 0, NotSpace) == |name| && s[..|name|] == name
            && ParseDayYear(s, |name|, m) == Some(CivilDate(y, m, d))
  {
    var day, year := Decimal(d), Decimal(y);
    DecimalWidth(d);
    DecimalWidth(y);
    DateLayout(name, day, year);
    var s := name + " " + day + ", " + year;
    var c := |name| + 1 + |day|;
    DateSpans(s, |name|, |name| + 1, c, c + 2);
    DecimalValue(d);
    DecimalValue(y);
  }

  /** A date written as `datetime` prints it with `%B %d, %Y` (in any
      letter case, with the day unpadded) is read back as that date. */
  lemma ParseDateRoundTrip(name: string, m: nat, d: nat, y: nat)
    requires 1 <= m <= 12 && Lower(name) == MonthName(m)
    requires 1000 <= y <= 9999 && 1 <= d <= DaysInMonth(y, m)
    ensures ParseDate(name + " " + Decimal(d) + ", " + Decimal(y)) == Some(CivilDate(y, m, d))
  {
    MonthNameNumber(m);
    LowersToWord(name, MonthName(m));
    DayYearRoundTrip(name, m, d, y);
  }

  /** Whatever `ParseDate` accepts is a real date. */
  lemma ParseDateValid(s: string)
    ensures ParseDate(s).Some? ==> ValidDate(ParseDate(s).value)
  {
  }

  /** A past order is kept unless its date was read and falls before 2015;
      an unreadable date keeps it. */
  predicate RecentEnough(date: Option<string>) {
    match date
    case None => true
    case Some(d) =>
      match ParseDate(d)
      case None => true
      case Some(parsed) => parsed.year >= 2015
  }

  /** One anchor: the stripped text as title, the issue date it quotes, and
      the order kept when the date allows it and the `href` is present,
      non-empty and ends with ".pdf". */
  function PastOrder(link: Link): Option<Order> {
    var title := Strip(link.text);
    var date := IssuedDate(title);
    if RecentEnough(date) && link.href.Some? && link.href.value != [] && EndsWith(link.href.value, ".pdf")
    then Some(Order(title, link.href, date))
    else None
  }

  /** The orders kept from the anchors, in page order. */
  function PastOrders(links: seq<Link>): seq<Order>
    decreases |links|
  {
    if links == [] then []
    else PastOrders(links[..|links| - 1]) + Present(PastOrder(links[|links| - 1]))
  }

  /** `scrape_past_orders` over the anchors of the past-orders page,
      `None` when `driver.get` raised; `saved` is what is written to the
      output file, `None` when the exception left through the `finally`. */
  method ScrapePastOrders(page: Option<seq<Link>>) returns (saved: Option<seq<Order>>)
    ensures saved == if page.None? then None else Some(PastOrders(page.value))
  {
    if page.None? {
      return None;
    }
    var links := page.value;
    var orders: seq<Order> := [];
    var i := 0;
    while i < |links|
      invariant i <= |links|
      invariant orders == PastOrders(links[..i])
    {
      var order := PastOrder(links[i]);
      PastOrdersStep(links, i);
      if order.Some? {
        orders := orders + [order.value];
      }
      i := i + 1;
    }
    assert links[..i] == links;
    saved := Some(orders);
  }

  /** One turn of the anchor loop: anchor `i` adds its order, if any. */
  lemma PastOrdersStep(links: seq<Link>, i: nat)
    requires i < |links|
    ensures PastOrders(links[..i + 1]) == PastOrders(links[..i]) + Present(PastOrder(links[i]))
  {
    assert links[..i + 1][..i] == links[..i];
  }

  /** The selection rule: an anchor gives an order exactly when its `href`
      ends with ".pdf" and its quoted date, if readable, is in 2015 or
      later. */
  lemma PastOrderRule(link: Link)
    ensures PastOrder(link).Some? <==>
              link.href.Some? && EndsWith(link.href.value, ".pdf")
              && RecentEnough(IssuedDate(Strip(link.text)))
    ensures PastOrder(link).Some? ==>
              PastOrder(link).value == Order(Strip(link.text), link.href, IssuedDate(Strip(link.text)))
  {
  }

  /** The 2015 filter at work: a link whose title's leftmost match is a
      valid date, its month named in full in any case, is kept exactly
      when its `href` ends with ".pdf" and the year is 2015 or later. */
  lemma PastOrderIssued(link: Link, pre: string, name: string, m: nat, d: nat, y: nat, post: string)
    requires Strip(link.text) == pre + "issued " + WrittenDate(name, d, y) + post
    requires forall q :: 0 <= q < |pre| ==> IssuedAt(Strip(link.text), q).None?
    requires 1 <= m <= 12 && Lower(name) == MonthName(m)
    requires 1000 <= y <= 9999 && 1 <= d <= DaysInMonth(y, m)
    ensures PastOrder(link).Some? <==> link.href.Some? && EndsWith(link.href.value, ".pdf") && y >= 2015
  {
    MonthNameNumber(m);
    LowersToWord(name, MonthName(m));
    IssuedDateWellFormed(Strip(link.text), pre, name, d, y, post);
    ParseDateRoundTrip(name, m, d, y);
    PastOrderRule(link);
  }

  /** Anchors are handled independently and in order. */
  lemma {:induction false} PastOrdersConcat(a: seq<Link>, b: seq<Link>)
    ensures PastOrders(a + b) == PastOrders(a) + PastOrders(b)
    decreases |b|
  {
    if b == [] {
      assert a + b == a;
    } else {
      assert (a + b)[..|a + b| - 1] == a + b[..|b| - 1];
      PastOrdersConcat(a, b[..|b| - 1]);
    }
  }

  /** Every past order kept links to a ".pdf" and is not known to predate
      2015. */
  lemma {:induction false} PastOrdersKept(links: seq<Link>)
    ensures |PastOrders(links)| <= |links|
    ensures forall k :: 0 <= k < |PastOrders(links)| ==>
              var o := PastOrders(links)[k];
              o.pdfLink.Some? && EndsWith(o.pdfLink.value, ".pdf") && RecentEnough(o.date)
    decreases |links|
  {
    if links != [] {
      PastOrdersKept(links[..|links| - 1]);
    }
  }
}
