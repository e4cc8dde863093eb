# PolicyScrapers, modelled in Dafny

PolicyScrapers collects public-policy documents about artificial
intelligence. A language model is asked for URLs of policy documents in
one state and category (`documentScraper/search.py`). Those URLs are
downloaded, either directly or by rendering the page in a headless browser
(`documentScraper/downloader.py`). Three scrapers collect executive orders
from the New York, California and Texas governors' sites
(`executiveOrderScrapers/`). A fourth collector picks the passed bills of
recent sessions from the LegiScan API (`legiscanScraper/`).

This project models the logic of those scripts that runs without the
network. Everything the scripts obtain from outside is given to the model
as data:

- an HTTP reply is a status and a body, or an exception;
- a browser render is one of its possible results;
- a parsed page is its blocks, rows, cells or anchors;
- a LegiScan reply is a record whose optional fields are the keys that
  may be missing;
- a CSV row is a map from column to text, `None` where a short row stops;
- the language model is a function from the prompt to the text it answers,
  or `None` when the call raised.

One module per source file:

| file | module | source |
|---|---|---|
| `wrappers.dfy` | `Wrappers` | `Option` and `Result` |
| `http.dfy` | `Http` | the statuses on which `raise_for_status` raises |
| `strings.dfy` | `Strings` | the Python `str` operations used: `strip`, `split`, `join`, `lower`, `endswith`, `in`, `replace`, `str(n)` |
| `downloader.dfy` | `Downloader` | `documentScraper/downloader.py` |
| `search.dfy` | `Search` | `documentScraper/search.py` |
| `ny_orders.dfy` | `NyOrders` | `executiveOrderScrapers/ny_EOs.py` |
| `ca_orders.dfy` | `CaOrders` | `executiveOrderScrapers/ca_EOs.py` |
| `tx_orders.dfy` | `TxOrders` | `executiveOrderScrapers/tx_EOs.py` |
| `legiscan.dfy` | `Legiscan` | `legiscanScraper/legiscan_scraper.py` |

Each query or rule is a function. Each loop of the source is a method
whose `ensures` ties its result to a specification function, and lemmas
then state what the source promises about that function. The browser
session opened by `save_page_as_pdf` is a class with an open/closed flag.

In these places the code does something its names and comments do not
suggest, and the model follows the code:

- **NY Senate file name.** A rewritten NY Senate link is saved under the
  name taken from the original URL. So `.../s1234/download` becomes
  `download.pdf`, although the page rendered is `.../s1234` (`Downloader.RewrittenNameFromOriginal`,
  `Downloader.NySenateRewrite`).
- **Browser failures escape.** `chromium.launch` and `new_page` run
  outside the `try` of `save_page_as_pdf`. If either raises, the exception
  leaves `download_pdfs` and stops the batch. If `new_page` raises, the
  browser is left open. Only `goto` and `pdf` failures are caught
  (`Downloader.OnlyBrowserStartEscapes`, `Downloader.SavePageAsPdf`).
- **Unreadable NY dates.** A past New York order whose quoted date cannot
  be parsed is kept, not dropped (`NyOrders.PastOrderRule`).
- **Texas rows without an anchor.** A Texas row with six cells but no
  anchor in its third cell makes the whole scrape raise. It is not
  skipped (`TxOrders.RowRule`).

## Model

| member | source | states |
|---|---|---|
| Downloader.ClassifyRules | documentScraper/downloader.py:48-69 | Exactly one branch applies to each URL, tried in order. The NY Senate rewrite applies exactly when the URL contains "nysenate.gov" and ends with "/download"; the corrected URL plus "/download" is the original. Otherwise a direct fetch applies exactly when the URL ends in ".pdf" in any case. Everything else is rendered. |
| Downloader.LastSegmentIsLastPiece | documentScraper/downloader.py:42 | The segment is the last piece of `rstrip('/')` split at '/'. |
| Downloader.OutputFilenameShape | documentScraper/downloader.py:42-44 | The file name has no '/' and ends in ".pdf" in any case. It is the segment itself when that already ends in ".pdf", and the segment plus ".pdf" otherwise. |
| Downloader.SegmentIsSuffix | documentScraper/downloader.py:42 | The segment is a suffix of the URL with trailing slashes removed. |
| Downloader.SegmentAfterLastSlash | documentScraper/downloader.py:42 | The segment of `p + "/" + t`, for a non-empty `t` without '/', is `t`. |
| Downloader.RewrittenNameFromOriginal | documentScraper/downloader.py:42-51 | A rewritten NY Senate URL is always saved as "download.pdf". |
| Downloader.FetchWritesOnlyOn200 | documentScraper/downloader.py:55-66 | A direct fetch never escapes. It writes a file exactly when the status is 200, and the file holds the response body under the derived name. |
| Downloader.RenderTarget | documentScraper/downloader.py:48-69 | A render targets the corrected URL for a NY Senate link and the URL itself for the fallback. It writes a file exactly when the browser printed the page. |
| Downloader.OnlyBrowserStartEscapes | documentScraper/downloader.py:20-30 | A URL makes the batch raise exactly when it is rendered and the browser launch or `new_page` raised. |
| Downloader.Browser.Launch | documentScraper/downloader.py:20 | A launched browser is open. |
| Downloader.Browser.Close | documentScraper/downloader.py:29-30 | A closed browser is not open. |
| Downloader.SavePageAsPdf | documentScraper/downloader.py:19-30 | The step is the render's outcome. No browser exists when the launch raised. Otherwise the browser is fresh, and it stays open exactly when `new_page` raised. |
| Downloader.ProcessUrl | documentScraper/downloader.py:41-69 | One loop iteration produces the step that the specification function gives for that URL. |
| Downloader.DownloadPdfs | documentScraper/downloader.py:36-69 | The outcomes and the escaping exception are those of the batch specification. |
| Downloader.BatchInOrder | documentScraper/downloader.py:40 | Outcome `j` is the treatment of URL `j`. Every URL gets one outcome unless something escaped, and then the exception came from the URL right after the last outcome. |
| Downloader.RaisedIsFinal | documentScraper/downloader.py:40 | After an exception escapes, no further URL is processed. |
| Downloader.OneOutcomePerUrl | documentScraper/downloader.py:40-69 | When no browser start fails, there is exactly one outcome per URL and nothing escapes. |
| Downloader.BatchStep | documentScraper/downloader.py:40-69 | One loop step: a raising URL ends the batch with its exception, and any other URL appends its outcome. |
| Downloader.DirectoryFromLastWrite | documentScraper/downloader.py:45 | Every file in the output directory was written by some outcome, with that outcome's bytes, and no later outcome wrote the same name. |
| Downloader.DirectoryKeepsWrite | documentScraper/downloader.py:45 | A write that no later outcome overwrites under the same name stays in the directory. |
| Downloader.DirectFetchOwnName | documentScraper/downloader.py:42-55 | A link outside the NY Senate whose last segment is `stem` + ".pdf" is fetched directly and saved as that segment. |
| Downloader.NySenateRewrite | documentScraper/downloader.py:42-51 | A link with the NY Senate host that ends in "/download" is rendered from the URL without that suffix, and the file is still named "download.pdf". |
| Search.KeptLinesClean | documentScraper/search.py:75 | The comprehension keeps at most one element per line. When no line holds '\n', every element is non-empty, stripped and one line. |
| Search.KeptLinesConcat | documentScraper/search.py:75 | Lines are filtered one at a time, keeping their order. |
| Search.KeptLinesSingle | documentScraper/search.py:75 | One line gives its stripped self, or nothing when it is blank. |
| Search.ParseOutputClean | documentScraper/search.py:74-75 | Every element returned is non-empty, equal to its own strip, and contains no '\n'. |
| Search.KeptLinesTrimLeft | documentScraper/search.py:75 | Leading whitespace of the text changes nothing in the result. |
| Search.KeptLinesTrimRight | documentScraper/search.py:75 | Trailing whitespace of the text changes nothing in the result. |
| Search.OuterStripRedundant | documentScraper/search.py:75 | Stripping the whole text first changes nothing: the result is the filter of the unstripped text's lines. |
| Search.ParseOutputCount | documentScraper/search.py:75 | There are no more elements than '\n'-separated lines, and there is one more line than '\n' characters. |
| Search.ParseOutputLine | documentScraper/search.py:75 | A single line gives its stripped self, or nothing when it is blank. |
| Search.ParseOutputConcat | documentScraper/search.py:75 | Two texts joined by '\n' give the URLs of the first followed by those of the second. |
| Search.ParseOutputOfJoin | documentScraper/search.py:75 | Clean URLs joined with '\n' are read back unchanged. |
| Search.ParseOutputRoundTrip | documentScraper/search.py:75 | Parsing the result joined with '\n' gives the same list back. |
| Search.CategoryNames | documentScraper/search.py:9-72 | Categories and their table names correspond one to one. |
| Search.FirstKeywords | documentScraper/search.py:9-61 | Every keyword list is non-empty, and its first entry is the keyword used in the prompt. |
| Search.FirstKeywordRule | documentScraper/search.py:9-61 | The first keyword is "Perception" for Perception and "Artificial Intelligence" for every other category. |
| Search.InterleaveMentions | documentScraper/search.py:85-90 | Every value put into the f-string occurs in the result. |
| Search.PromptMentions | documentScraper/search.py:85-90 | The prompt contains the state, the category, the keyword and the definition. |
| Search.SearchErrors | documentScraper/search.py:77-103 | The search raises the ValueError, with the message "Unsupported category: " followed by the name, exactly for a category outside the tables. It fails with the model call's exception exactly when the category is supported and that call raised. |
| Search.SearchAsks | documentScraper/search.py:82-103 | A supported category asks the model once, in the caller's state as the region. The prompt holds the state, the category, its first keyword and its definition. The model's reply decides the result. |
| Search.SearchResult | documentScraper/search.py:92-108 | When the model answers, the URLs are the parsed answer. |
| NyOrders.PageUrlsDistinct | executiveOrderScrapers/ny_EOs.py:37 | Different page numbers give different page URLs, so no page is requested twice under one URL. |
| NyOrders.StopFromShape | executiveOrderScrapers/ny_EOs.py:43-55 | From a given page, the walk stops on the first later page that timed out or has no block. |
| NyOrders.StopPageShape | executiveOrderScrapers/ny_EOs.py:43-55 | The walk stops on the first page that timed out or has no block, and at the latest on the page after the last one. |
| NyOrders.StopsHere | executiveOrderScrapers/ny_EOs.py:43-55 | Up to the stopping page, a page ends the walk exactly when it is the stopping page. |
| NyOrders.WalkRaisesRule | executiveOrderScrapers/ny_EOs.py:34-90 | The walk raises exactly when some page failed to load and no earlier page timed out or had no block. |
| NyOrders.ScrapeCurrentOrders | executiveOrderScrapers/ny_EOs.py:29-93 | Pages 0, 1, … are requested in order up to and including the stopping page. Nothing is saved when that page failed to load. Otherwise the saved orders are those of the pages before it, in page order and then block order. |
| NyOrders.ExtractPage | executiveOrderScrapers/ny_EOs.py:58-84 | The block loop collects the orders of the page's blocks, in block order. |
| NyOrders.PageOrdersShape | executiveOrderScrapers/ny_EOs.py:58-80 | A page gives at most one order per block. Each order's title and date are stripped. |
| NyOrders.PageOrdersSingle | executiveOrderScrapers/ny_EOs.py:58-84 | A block gives an order exactly when it has a title. The order holds the stripped title, the block's document link as it is (`None` without one), and the stripped date (`None` without one). |
| NyOrders.PageOrdersConcat | executiveOrderScrapers/ny_EOs.py:58 | Blocks are handled independently and in order. |
| NyOrders.PageOrdersCount | executiveOrderScrapers/ny_EOs.py:58-84 | A page gives exactly one order per titled block. A missing link or date does not skip the block. |
| NyOrders.OrdersAccumulate | executiveOrderScrapers/ny_EOs.py:31 | The orders of the first `k` pages are a prefix of those of any longer run of pages. Earlier entries are never changed. |
| NyOrders.OrdersBeforeAgree | executiveOrderScrapers/ny_EOs.py:35-86 | Sites that agree on the first pages give the same orders for those pages. |
| NyOrders.LaterPagesIrrelevant | executiveOrderScrapers/ny_EOs.py:43-55 | Nothing from the stopping page or after it affects the result. |
| NyOrders.ThreeFullPages | executiveOrderScrapers/ny_EOs.py:32-86 | Three pages of five titled blocks followed by an empty page give fifteen orders from four requests. |
| NyOrders.FirstHitLeftmost | executiveOrderScrapers/ny_EOs.py:119-120 | The leftmost-first search returns the value at the first position that has one, and nothing exactly when no position has one. |
| NyOrders.SearchIssuedLeftmost | executiveOrderScrapers/ny_EOs.py:119-120 | The date found is the group of the leftmost match of the "issued" pattern, and there is one exactly when the pattern matches somewhere. |
| NyOrders.IssueSpans | executiveOrderScrapers/ny_EOs.py:119 | In a text holding a space, letters, a space, digits, a comma and a space, and four digits after "issued", each greedy run of the pattern ends exactly at its piece. |
| NyOrders.IssuedAtWellFormed | executiveOrderScrapers/ny_EOs.py:119-120 | "issued", a space and a date of ASCII letters, a day of one or two digits and a four-digit year match the pattern wherever they stand and whatever follows, and the group is the date. |
| NyOrders.IssuedDateWellFormed | executiveOrderScrapers/ny_EOs.py:119-120 | A title whose leftmost match is such a date quotes that date. |
| NyOrders.MonthNameNumber | executiveOrderScrapers/ny_EOs.py:127 | The full English name of each month from 1 to 12 is read as that month, and it is made of lower-case letters. |
| NyOrders.MonthNumberName | executiveOrderScrapers/ny_EOs.py:127 | Only the full name of a month is read as a month: it lies between 1 and 12, and its name is the one read. |
| NyOrders.DateLayout | executiveOrderScrapers/ny_EOs.py:127 | In `name + " " + day + ", " + year`, the name, the day and the year lie where `%B %d, %Y` reads them. |
| NyOrders.DateSpans | executiveOrderScrapers/ny_EOs.py:127 | In a text laid out as a name, a space, digits, a comma and a space, and digits, the parser's runs end exactly at those pieces. |
| NyOrders.DayYearRoundTrip | executiveOrderScrapers/ny_EOs.py:127 | After a month name, a valid day and a four-digit year written as `%d, %Y` are read back as that date. |
| NyOrders.ParseDateRoundTrip | executiveOrderScrapers/ny_EOs.py:127 | A valid date with a four-digit year, written as the month's full name in any case, the day and the year in the `%B %d, %Y` layout, is parsed back to itself. |
| NyOrders.ParseDateValid | executiveOrderScrapers/ny_EOs.py:125-131 | Whatever the date parser accepts is a real calendar date. |
| NyOrders.ScrapePastOrders | executiveOrderScrapers/ny_EOs.py:101-141 | Nothing is saved when the page failed to load. Otherwise the anchor loop keeps the orders that the selection rule keeps, in page order. |
| NyOrders.PastOrderRule | executiveOrderScrapers/ny_EOs.py:115-138 | An anchor gives an order exactly when its href ends with ".pdf" and its quoted date is absent, unreadable, or in 2015 or later. The order holds the stripped text, the href and the date group. |
| NyOrders.PastOrderIssued | executiveOrderScrapers/ny_EOs.py:115-138 | A link whose title's leftmost match is a valid date, its month named in full in any case, is kept exactly when its `href` ends with ".pdf" and the year is 2015 or later: an order issued before 2015 is dropped. |
| NyOrders.PastOrdersConcat | executiveOrderScrapers/ny_EOs.py:115 | Anchors are handled independently and in order. |
| NyOrders.PastOrdersKept | executiveOrderScrapers/ny_EOs.py:123-138 | Every kept order links to a ".pdf" and is not known to predate 2015. There are no more orders than anchors. |
| CaOrders.FirstCsvLinkShape | executiveOrderScrapers/ca_EOs.py:29 | The link found belongs to the first anchor whose href contains the CSV export name. There is none exactly when no anchor has one. |
| CaOrders.ResolveRule | executiveOrderScrapers/ca_EOs.py:34-35 | An href starting with "/" becomes the base URL followed by the href. Any other href is returned unchanged. |
| CaOrders.FindCsvUrlOutcomes | executiveOrderScrapers/ca_EOs.py:13-36 | A failed request raises, and so does an error status. The ValueError is raised exactly when no anchor is a CSV link. Otherwise the result is the resolved link of the first anchor that is a CSV link. |
| CaOrders.ExtractExecutiveOrders | executiveOrderScrapers/ca_EOs.py:56-80 | The row loop returns the records, or the error of the first row that raises, that the specification function gives. |
| CaOrders.ExecutiveOrdersErrorStays | executiveOrderScrapers/ca_EOs.py:60-78 | Once a row has raised, later rows change nothing. |
| CaOrders.FirstUnfilledRule | executiveOrderScrapers/ca_EOs.py:63-76 | The first `None` value read is the leftmost one in reading order, and there is none exactly when every column read is filled. |
| CaOrders.RowOutcomeRule | executiveOrderScrapers/ca_EOs.py:62-78 | A row raises exactly when a tag column or `Type` holds `None`, or the row is an executive order and a column of its record holds `None`; the error names a column holding `None`. A row that does not raise gives its record exactly when its `Type` contains "Executive Order". |
| CaOrders.FilledRowsSucceed | executiveOrderScrapers/ca_EOs.py:57-78 | Rows that hold no `None` value never make the extraction raise. |
| CaOrders.ExecutiveOrdersSingle | executiveOrderScrapers/ca_EOs.py:70-78 | A row that does not raise gives its record exactly when its `Type` contains "Executive Order", and nothing otherwise. A row that raises makes the whole extraction fail with its error. |
| CaOrders.ExecutiveOrdersConcat | executiveOrderScrapers/ca_EOs.py:60 | Rows are handled one at a time, keeping their order; an error in the later rows is the result. |
| CaOrders.ExecutiveOrdersBound | executiveOrderScrapers/ca_EOs.py:60-78 | The output is no longer than the input. |
| CaOrders.NonEmptyShape | executiveOrderScrapers/ca_EOs.py:65 | The kept tag values are non-empty and come from increasing positions. |
| CaOrders.NonEmptyComplete | executiveOrderScrapers/ca_EOs.py:65 | No non-empty tag value is dropped. |
| CaOrders.NonEmptyConcat | executiveOrderScrapers/ca_EOs.py:62-66 | Tag values are filtered one at a time, keeping their order. |
| CaOrders.TagsShape | executiveOrderScrapers/ca_EOs.py:62-66 | Each tag is the stripped, non-empty value of one of `Tag 1` to `Tag 14`, in ascending column order. Every tag column holding more than whitespace gives a tag. |
| CaOrders.TagsOnlyFromTagColumns | executiveOrderScrapers/ca_EOs.py:62-67 | Only columns `Tag 1` to `Tag 14` affect the tags. |
| CaOrders.CombinedTagsEmpty | executiveOrderScrapers/ca_EOs.py:62-67 | The tags field is "" exactly when no tag column holds more than whitespace. |
| CaOrders.NonEmptyJoinStep | executiveOrderScrapers/ca_EOs.py:67 | Each further tag is joined after the previous ones with ", ". |
| CaOrders.MapRowFields | executiveOrderScrapers/ca_EOs.py:71-78 | Every field is stripped, and a missing column gives "". |
| TxOrders.ScrapeExecutiveOrders | executiveOrderScrapers/tx_EOs.py:13-43 | The scrape returns the records, or the first error, that the specification function gives. |
| TxOrders.RecordsErrorStays | executiveOrderScrapers/tx_EOs.py:30-37 | Once a row has raised, later rows change nothing. |
| TxOrders.RecordsErrors | executiveOrderScrapers/tx_EOs.py:30-37 | Rows only raise for a missing anchor or a missing `href`. |
| TxOrders.ScrapeErrors | executiveOrderScrapers/tx_EOs.py:15-37 | The scrape fails on the request exactly when `requests.get` raised, and on the table exactly when the page has none. Every other failure comes from a row's anchor or `href`. |
| TxOrders.HeaderIgnored | executiveOrderScrapers/tx_EOs.py:20 | The first row never produces a record, whatever it holds. |
| TxOrders.RowRule | executiveOrderScrapers/tx_EOs.py:24-41 | A row with fewer than six cells is skipped. A full row raises when its third cell has no anchor or the anchor has no href. Otherwise the row gives exactly one record: date, session, author, type and number are the stripped texts of cells 0, 1, 3, 4 and 5; the title is the anchor's text; the link is the rewritten href. |
| TxOrders.ExtraCellsIgnored | executiveOrderScrapers/tx_EOs.py:34-40 | Cells after the sixth are never read. |
| TxOrders.RecordsConcat | executiveOrderScrapers/tx_EOs.py:24-41 | Rows are handled in order: the records of two stretches of rows follow each other. |
| TxOrders.RecordsCount | executiveOrderScrapers/tx_EOs.py:26-33 | When the scrape succeeds, every row with at least six cells gives exactly one record. |
| TxOrders.GetTextConcat | executiveOrderScrapers/tx_EOs.py:34-40 | The text of a run of pieces is the text of each part, put together. |
| TxOrders.GetTextStripped | executiveOrderScrapers/tx_EOs.py:34-40 | A cell's text has no whitespace at either end. |
| TxOrders.RelativeLink | executiveOrderScrapers/tx_EOs.py:37 | An href not starting with "http" becomes "https://lrl.texas.gov" followed by the href. |
| TxOrders.AbsoluteLinkKept | executiveOrderScrapers/tx_EOs.py:37 | An href starting with "http" that does not mention the former host is unchanged. |
| TxOrders.LegacyLinkMoved | executiveOrderScrapers/tx_EOs.py:37 | A link on "http://www.lrl.state.tx.us" is moved to "https://lrl.texas.gov", keeping its path. |
| Legiscan.GetJsonRule | legiscanScraper/legiscan_scraper.py:16-28 | `get_json` returns data exactly when the request and the decoding succeeded, the status code is not an error and the status is "OK". The data is then the body. |
| Legiscan.FailedRequestsGiveNothing | legiscanScraper/legiscan_scraper.py:33-52 | After a failed request, `get_sessions` and `get_bills` return [] and `get_bill_details` returns None. |
| Legiscan.GetBillsDropsFirst | legiscanScraper/legiscan_scraper.py:41-44 | The bills are the master-list values after the first, whatever that first entry holds. |
| Legiscan.RecentSessionsSingle | legiscanScraper/legiscan_scraper.py:75 | A session is kept exactly when it starts in the start year or later. A session without a start year counts as year 0. |
| Legiscan.RecentSessionsConcat | legiscanScraper/legiscan_scraper.py:75 | Sessions are filtered one at a time, keeping their order. |
| Legiscan.RecentSessionsKept | legiscanScraper/legiscan_scraper.py:75 | Every kept session comes from the list and starts in the start year or later. |
| Legiscan.BillDocsRule | legiscanScraper/legiscan_scraper.py:86-92 | A bill gives one record exactly when its details were fetched and it has `passed == 1`, and none otherwise. |
| Legiscan.ExtractDocumentUrlsShape | legiscanScraper/legiscan_scraper.py:57-65 | The texts, amendments and supplements are the `url` fields of the bill's lists: one per entry, in order, and [] for a missing list. The session name is None without a session object. The number and the passed flag are copied. |
| Legiscan.GatherStep | legiscanScraper/legiscan_scraper.py:78-92 | One loop step: a failing item ends the collection with its failure, and any other item appends its records. |
| Legiscan.GatherErrorStays | legiscanScraper/legiscan_scraper.py:78-92 | Once an item has failed, later items change nothing. |
| Legiscan.GatherOutcome | legiscanScraper/legiscan_scraper.py:78-92 | Collection fails exactly when some item fails, and then with the failure of the first one. |
| Legiscan.GatherConcat | legiscanScraper/legiscan_scraper.py:78-92 | Records come in item order: two stretches of items give the records of the first followed by those of the second. |
| Legiscan.CollectPassed | legiscanScraper/legiscan_scraper.py:86-94 | The bill loop of one session returns that session's records, in bill order. |
| Legiscan.CollectBills | legiscanScraper/legiscan_scraper.py:70-92 | The method returns the records that the specification function gives: recent sessions in order, and within each its passed bills in order. |
| Legiscan.CollectInOrder | legiscanScraper/legiscan_scraper.py:78-92 | When nothing fails, the records are those of the recent sessions in session order. |
| Strings.StripShape | executiveOrderScrapers/ca_EOs.py:63 | `strip()` removes leading and trailing whitespace and nothing else, and its result is stripped. |
| Strings.StripIdempotent | documentScraper/search.py:75 | Stripping twice is stripping once. |
| Strings.SplitCount | documentScraper/search.py:75 | Splitting at a character gives one more piece than there are occurrences of it. |
| Strings.JoinSplit | documentScraper/search.py:75 | Joining the pieces of a split with the separator restores the text. |
| Strings.SplitJoin | documentScraper/search.py:75 | Splitting pieces joined by a separator they do not contain gives them back. |
| Strings.DecimalValue | executiveOrderScrapers/ny_EOs.py:37 | The decimal text of a number reads back as that number. |
| Strings.ReplaceAbsent | executiveOrderScrapers/tx_EOs.py:37 | `replace` changes nothing when the pattern does not occur. |

## Left out

- HTTP requests, the Playwright and Selenium browsers, their waits and `time.sleep`: replies and page results, including a request or page load that raised, are inputs of the model.
- HTML parsing (BeautifulSoup, CSS selectors) and `csv.DictReader`: the model takes the anchors, blocks, rows and cells they produce. A CSV row holds `None` for the columns a short row lacks, as the reader's default `restval` gives; the extra fields of a long row (the `None` key) are never read and are not modelled.
- JSON files, `os.makedirs`, `print` and the request headers: they add no logic.
- The OpenAI client, `dotenv` and the API key: the model's answer, or `None` when the call raised, is the `ask` parameter; the API key and request parameters are not modelled.
- `download_csv`, `save_to_json`, `run_pipeline`, `run`, `init_driver` and every `main`: they only call the modelled functions and the I/O above. `documentScraper/main.py` is not part of this model.
- `Search.SearchPolicyLinks`: the KeyError that `CATEGORY_DEFINITIONS[category]` could raise is not modelled, because both tables have the same eight keys.
- `NyOrders.ParseDate`: approximates `datetime.strptime(s, "%B %d, %Y")` by a full English month name in any ASCII case, whitespace, one or two ASCII digits and a comma, whitespace, and four ASCII digits; the locale and Unicode digits are not modelled.
- `NyOrders.IssuedAt`: `\d` matches ASCII digits only, while Python's also matches other Unicode decimal digits.
- `Strings.Lower`: lowers ASCII letters only, as far as `lower().endswith(".pdf")` needs it.
- `Legiscan.BillDocs`: `passed` is an optional integer, so the Python equalities `True == 1` and `1.0 == 1` are not modelled; JSON values of an unexpected type (a `session` that is not an object, for example) are not modelled either.
- `Legiscan.GetBills`: the master list is the sequence of its values in dictionary order; its keys are not modelled.
- `TxOrders.ScrapeExecutiveOrders`: `find_all("tr")` also finds rows of nested tables; the model takes the rows as given. The status of the Texas page is not checked by the source and is not modelled.
- `Downloader.DownloadPdfs`: a failure to write the file (`open`), which the source catches like a fetch error, is not modelled; a status-200 fetch always records its bytes.
