/** The acquisition orchestrator of `documentScraper/downloader.py`: for each
    candidate URL, derive the output file name, pick a strategy (NY Senate
    rewrite then render, direct fetch, or render), run it, and go on with the
    next URL. The network and the browser are given as functions from the URL
    asked for to what happens when it is asked for. */
module Downloader {
  import opened Wrappers
  import opened Strings

  type Bytes = seq<bv8>

  const NySenateHost := "nysenate.gov"
  const BrokenSuffix := "/download"
  const PdfSuffix := ".pdf"

  /** The strategy chosen for one URL. */
  datatype Strategy =
    | RewriteThenRender(corrected: string)
    | DirectFetch
    | RenderPage

  /** The NY Senate rule: the host appears in the URL and the URL ends with
      the broken suffix (both case-sensitive). */
  predicate IsNySenateDownload(url: string) {
    Contains(url, NySenateHost) && EndsWith(url, BrokenSuffix)
  }

  /** The three rules, tried in order; the first that matches decides. */
  function Classify(url: string): Strategy {
    if IsNySenateDownload(url) then RewriteThenRender(url[..|url| - |BrokenSuffix|])
    else if EndsWithIgnoringCase(url, PdfSuffix) then DirectFetch
    else RenderPage
  }

  /** Exactly one strategy per URL, in priority order; the corrected URL
      plus "/download" is the original URL. */
  lemma ClassifyRules(url: string)
    ensures Classify(url).RewriteThenRender? <==> IsNySenateDownload(url)
    ensures Classify(url).RewriteThenRender? ==> Classify(url).corrected + BrokenSuffix == url
    ensures Classify(url).DirectFetch? <==> !IsNySenateDownload(url) && EndsWithIgnoringCase(url, PdfSuffix)
    ensures Classify(url).RenderPage? <==> !IsNySenateDownload(url) && !EndsWithIgnoringCase(url, PdfSuffix)
  {
  }

  /** The last path segment: what follows the last '/' once the trailing
      slashes are gone. */
  function LastSegment(url: string): string {
    AfterLast(RStripChar(url, '/'), '/')
  }

  /** This is `url.rstrip('/').split('/')[-1]`. */
  lemma LastSegmentIsLastPiece(url: string)
    ensures LastSegment(url) == Last(Split(RStripChar(url, '/'), '/'))
  {
    AfterLastIsLastPiece(RStripChar(url, '/'), '/');
  }

  /** The last segment, with ".pdf" appended unless it already ends so,
      ignoring case. */
  function OutputFilename(url: string): string {
    var seg := LastSegment(url);
    if EndsWithIgnoringCase(seg, PdfSuffix) then seg else seg + PdfSuffix
  }

  /** The file name has no '/', ends with ".pdf" ignoring case, and is the
      last segment itself when that already ends so. */
  lemma OutputFilenameShape(url: string)
    ensures '/' !in LastSegment(url) && '/' !in OutputFilename(url)
    ensures EndsWithIgnoringCase(OutputFilename(url), PdfSuffix)
    ensures EndsWithIgnoringCase(LastSegment(url), PdfSuffix) ==> OutputFilename(url) == LastSegment(url)
    ensures !EndsWithIgnoringCase(LastSegment(url), PdfSuffix) ==> OutputFilename(url) == LastSegment(url) + PdfSuffix
  {
    AfterLastShape(RStripChar(url, '/'), '/');
    EndsWithPdfAfterAppend(LastSegment(url));
  }

  /** The segment is taken from the end of the URL once its trailing
      slashes are gone. */
  lemma SegmentIsSuffix(url: string)
    ensures EndsWith(RStripChar(url, '/'), LastSegment(url))
  {
    AfterLastShape(RStripChar(url, '/'), '/');
  }

  /** The segment is exactly what follows the last '/' that is followed by
      something other than a slash. */
  lemma SegmentAfterLastSlash(p: string, t: string)
    requires t != [] && '/' !in t
    ensures LastSegment(p + "/" + t) == t
  {
    var u := p + "/" + t;
    assert u[|u| - 1] == t[|t| - 1] && t[|t| - 1] in t;
    assert RStripChar(u, '/') == u;
    SplitLastAfterSep(p, t, '/');
    AfterLastIsLastPiece(u, '/');
  }

  /** A rewritten URL is saved under a name taken from the ORIGINAL URL,
      whose last segment is "download". */
  lemma RewrittenNameFromOriginal(url: string)
    requires IsNySenateDownload(url)
    ensures OutputFilename(url) == "download.pdf"
  {
    var p := url[..|url| - |BrokenSuffix|];
    assert url == p + "/" + "download";
    SegmentAfterLastSlash(p, "download");
    assert !EndsWithIgnoringCase("download", PdfSuffix) by {
      assert LowerChar("download"[4]) != PdfSuffix[0];
    }
  }

  /** `os.path.join(dir, name)` for a name that does not start with '/'. */
  function JoinPath(dir: string, name: string): string {
    if dir == [] || dir[|dir| - 1] == '/' then dir + name else dir + "/" + name
  }

  /** What `requests.get` does for one URL. */
  datatype FetchReply =
    | Response(status: int, content: Bytes)
    | FetchRaised(reason: string)

  /** What the browser does when asked to render one URL. `chromium.launch`
      and `new_page` run outside the `try` in `save_page_as_pdf`; `goto` and
      `pdf` run inside it. */
  datatype RenderReply =
    | LaunchRaised(reason: string)
    | NewPageRaised(reason: string)
    | GotoRaised(reason: string)
    | PdfRaised(reason: string)
    | Printed(pdf: Bytes)

  /** The recorded result of one URL. */
  datatype Outcome =
    | Downloaded(path: string, content: Bytes)
    | BadStatus(path: string, status: int)
    | FetchFailed(path: string, reason: string)
    | Rendered(path: string, target: string, pdf: Bytes)
    | RenderFailed(path: string, target: string, reason: string)

  /** One URL either records an outcome or raises out of the batch. */
  datatype Step = Done(outcome: Outcome) | Raised(reason: string)

  /** What the direct-fetch branch records: bytes only on status 200. */
  function FetchOutcome(path: string, reply: FetchReply): Outcome {
    match reply
    case FetchRaised(e) => FetchFailed(path, e)
    case Response(status, content) =>
      if status == 200 then Downloaded(path, content) else BadStatus(path, status)
  }

  /** What `save_page_as_pdf` does for `target`: errors of `goto` and `pdf`
      are caught, errors of `launch` and `new_page` escape. */
  function RenderStep(path: string, target: string, reply: RenderReply): Step {
    match reply
    case LaunchRaised(e) => Raised(e)
    case NewPageRaised(e) => Raised(e)
    case GotoRaised(e) => Done(RenderFailed(path, target, e))
    case PdfRaised(e) => Done(RenderFailed(path, target, e))
    case Printed(pdf) => Done(Rendered(path, target, pdf))
  }

  /** The whole treatment of one URL. */
  function Process(url: string, dir: string, net: string -> FetchReply, web: string -> RenderReply): Step {
    var path := JoinPath(dir, OutputFilename(url));
    match Classify(url)
    case RewriteThenRender(fixed) => RenderStep(path, fixed, web(fixed))
    case DirectFetch => Done(FetchOutcome(path, net(url)))
    case RenderPage => RenderStep(path, url, web(url))
  }

  /** A file the outcome left in the output directory. */
  datatype FileWrite = FileWrite(path: string, bytes: Bytes)

  function Written(o: Outcome): Option<FileWrite> {
    match o
    case Downloaded(path, content) => Some(FileWrite(path, content))
    case Rendered(path, _, pdf) => Some(FileWrite(path, pdf))
    case _ => None
  }

  /** Bytes are written for a direct fetch exactly when the status is 200,
      and they are the response body, under the name derived from the URL. */
  lemma FetchWritesOnlyOn200(url: string, dir: string, net: string -> FetchReply, web: string -> RenderReply)
    requires Classify(url).DirectFetch?
    ensures Process(url, dir, net, web).Done?
    ensures Written(Process(url, dir, net, web).outcome).Some?
            <==> net(url).Response? && net(url).status == 200
    ensures net(url).Response? && net(url).status == 200 ==>
              Written(Process(url, dir, net, web).outcome)
              == Some(FileWrite(JoinPath(dir, OutputFilename(url)), net(url).content))
  {
  }

  /** Rendering always targets the corrected URL for a NY Senate download
      link, and the original URL otherwise; a render writes a file exactly
      when the browser printed the page. */
  lemma RenderTarget(url: string, dir: string, net: string -> FetchReply, web: string -> RenderReply)
    requires !Classify(url).DirectFetch?
    ensures var target := if IsNySenateDownload(url) then url[..|url| - |BrokenSuffix|] else url;
            Process(url, dir, net, web) == RenderStep(JoinPath(dir, OutputFilename(url)), target, web(target))
            && (Process(url, dir, net, web).Done? && Written(Process(url, dir, net, web).outcome).Some?
                <==> web(target).Printed?)
  {
  }

  /** Only a failure to start the browser or to open a page ends the batch;
      a fetch never does. */
  lemma OnlyBrowserStartEscapes(url: string, dir: string, net: string -> FetchReply, web: string -> RenderReply)
    ensures Process(url, dir, net, web).Raised? <==>
            !Classify(url).DirectFetch? &&
            var target := if IsNySenateDownload(url) then url[..|url| - |BrokenSuffix|] else url;
            (web(target).LaunchRaised? || web(target).NewPageRaised?)
  {
  }

  /** The browser session of one render: open from launch until closed. */
  class Browser {
    var isOpen: bool

    constructor Launch()
      ensures isOpen
    {
      isOpen := true;
    }

    method Close()
      modifies this
      ensures !isOpen
    {
      isOpen := false;
    }
  }

  /** `save_page_as_pdf`: launch, open a page, then try `goto` and `pdf` and
      close the browser in `finally`. The browser is returned so that its
      state after the call can be stated: closed on every path that reaches
      the `try`, left open when `new_page` raises. */
  method SavePageAsPdf(url: string, path: string, web: string -> RenderReply)
    returns (step: Step, browser: Browser?)
    ensures step == RenderStep(path, url, web(url))
    ensures browser == null <==> web(url).LaunchRaised?
    ensures browser != null ==> fresh(browser) && (browser.isOpen <==> web(url).NewPageRaised?)
  {
    var reply := web(url);
    if reply.LaunchRaised? {
      return Raised(reply.reason), null;
    }
    browser := new Browser.Launch();
    if reply.NewPageRaised? {
      return Raised(reply.reason), browser;
    }
    if reply.Printed? {
      step := Done(Rendered(path, url, reply.pdf));
    } else {
      step := Done(RenderFailed(path, url, reply.reason));
    }
    browser.Close();
  }

  /** The body of the loop in `download_pdfs` for one URL. */
  method ProcessUrl(url: string, dir: string, net: string -> FetchReply, web: string -> RenderReply)
    returns (step: Step)
    ensures step == Process(url, dir, net, web) == Treatment(dir, net, web)(url)
  {
    var path := JoinPath(dir, OutputFilename(url));
    var strategy := Classify(url);
    if strategy.RewriteThenRender? {
      var browser;
      step, browser := SavePageAsPdf(strategy.corrected, path, web);
    } else if strategy.DirectFetch? {
      var reply := net(url);
      if reply.FetchRaised? {
        step := Done(FetchFailed(path, reply.reason));
      } else if reply.status == 200 {
        step := Done(Downloaded(path, reply.content));
      } else {
        step := Done(BadStatus(path, reply.status));
      }
    } else {
      var browser;
      step, browser := SavePageAsPdf(url, path, web);
    }
  }

  /** What a batch leaves behind: the outcomes recorded so far and, when a
      browser start failure escaped, its reason. */
  datatype Batch = Batch(outcomes: seq<Outcome>, raised: Option<string>)

  /** The treatment `download_pdfs` gives every URL of a batch. */
  function Treatment(dir: string, net: string -> FetchReply, web: string -> RenderReply): string -> Step {
    url => Process(url, dir, net, web)
  }

  /** The loop of `download_pdfs` over `urls`, where `treat` is what happens
      to one URL. */
  function RunBatch(urls: seq<string>, treat: string -> Step): Batch
    decreases |urls|
  {
    if urls == [] then Batch([], None)
    else
      var prev := RunBatch(urls[..|urls| - 1], treat);
      if prev.raised.Some? then prev
      else
        match treat(urls[|urls| - 1])
        case Raised(e) => Batch(prev.outcomes, Some(e))
        case Done(o) => Batch(prev.outcomes + [o], None)
  }

  /** Once something escaped, nothing more is processed. */
  lemma {:induction false} RaisedIsFinal(urls: seq<string>, k: nat, treat: string -> Step)
    requires k <= |urls| && RunBatch(urls[..k], treat).raised.Some?
    ensures RunBatch(urls, treat) == RunBatch(urls[..k], treat)
    decreases |urls| - k
  {
    if k < |urls| {
      var u := urls[..|urls| - 1];
      assert u[..k] == urls[..k];
      RaisedIsFinal(u, k, treat);
    } else {
      assert urls[..k] == urls;
    }
  }

  /** Every URL is treated once, in input order: the i-th outcome is the
      treatment of the i-th URL; all URLs get one unless something escaped,
      and then it escaped from the URL right after the last outcome. */
  lemma {:induction false} BatchInOrder(urls: seq<string>, treat: string -> Step)
    ensures var b := RunBatch(urls, treat);
            && |b.outcomes| <= |urls|
            && (forall j :: 0 <= j < |b.outcomes| ==> treat(urls[j]) == Done(b.outcomes[j]))
            && (b.raised.None? <==> |b.outcomes| == |urls|)
            && (b.raised.Some? ==> treat(urls[|b.outcomes|]) == Raised(b.raised.value))
    decreases |urls|
  {
    if urls != [] {
      var u := urls[..|urls| - 1];
      BatchInOrder(u, treat);
      var prev := RunBatch(u, treat);
      forall j | 0 <= j < |prev.outcomes| ensures urls[j] == u[j] { }
    }
  }

  /** With no browser start failure, there is exactly one outcome per URL. */
  lemma OneOutcomePerUrl(urls: seq<string>, dir: string, net: string -> FetchReply, web: string -> RenderReply)
    requires forall j :: 0 <= j < |urls| ==> Process(urls[j], dir, net, web).Done?
    ensures |RunBatch(urls, Treatment(dir, net, web)).outcomes| == |urls|
    ensures RunBatch(urls, Treatment(dir, net, web)).raised.None?
  {
    var treat := Treatment(dir, net, web);
    BatchInOrder(urls, treat);
  }

  /** One turn of the loop of `download_pdfs`: after the first `i` URLs
      left `outcomes`, the next URL either ends the batch or adds its
      outcome. */
  lemma BatchStep(urls: seq<string>, i: nat, treat: string -> Step, outcomes: seq<Outcome>)
    requires i < |urls| && RunBatch(urls[..i], treat) == Batch(outcomes, None)
    ensures treat(urls[i]).Raised? ==> RunBatch(urls, treat) == Batch(outcomes, Some(treat(urls[i]).reason))
    ensures treat(urls[i]).Done? ==> RunBatch(urls[..i + 1], treat) == Batch(outcomes + [treat(urls[i]).outcome], None)
  {
    assert urls[..i + 1][..i] == urls[..i];
    if treat(urls[i]).Raised? {
      RaisedIsFinal(urls, i + 1, treat);
    }
  }

  /** `download_pdfs`: every URL in order, one outcome each, until a browser
      start failure escapes. */
  method DownloadPdfs(urls: seq<string>, dir: string, net: string -> FetchReply, web: string -> RenderReply)
    returns (outcomes: seq<Outcome>, raised: Option<string>)
    ensures Batch(outcomes, raised) == RunBatch(urls, Treatment(dir, net, web))
  {
    ghost var treat := Treatment(dir, net, web);
    outcomes, raised := [], None;
    var i := 0;
    while i < |urls|
      invariant i <= |urls|
      invariant RunBatch(urls[..i], treat) == Batch(outcomes, None)
    {
      var step := ProcessUrl(urls[i], dir, net, web);
      BatchStep(urls, i, treat, outcomes);
      if step.Raised? {
        raised := Some(step.reason);
        return;
      }
      outcomes := outcomes + [step.outcome];
      i := i + 1;
    }
    assert urls[..i] == urls;
  }

  /** The output directory after a sequence of outcomes: later writes to the
      same name replace earlier ones. */
  function Directory(outcomes: seq<Outcome>): map<string, Bytes> {
    if outcomes == [] then map[]
    else
      var before := Directory(outcomes[..|outcomes| - 1]);
      match Written(outcomes[|outcomes| - 1])
      case None => before
      case Some(w) => before[w.path := w.bytes]
  }

  /** Every file in the directory was written by some outcome, with that
      outcome's bytes, and no later outcome wrote the same name. */
  lemma {:induction false} DirectoryFromLastWrite(outcomes: seq<Outcome>, path: string) returns (j: nat)
    requires path in Directory(outcomes)
    ensures j < |outcomes| && Written(outcomes[j]) == Some(FileWrite(path, Directory(outcomes)[path]))
    ensures forall k :: j < k < |outcomes| ==> Written(outcomes[k]).None? || Written(outcomes[k]).value.path != path
    decreases |outcomes|
  {
    var n := |outcomes|;
    var w := Written(outcomes[n - 1]);
    if w.Some? && w.value.path == path {
      j := n - 1;
    } else {
      var before := outcomes[..n - 1];
      j := DirectoryFromLastWrite(before, path);
      assert forall k :: j < k < n - 1 ==> outcomes[k] == before[k];
      assert outcomes[j] == before[j];
    }
  }

  /** A written file stays in the directory with its bytes unless a later
      outcome writes the same name. */
  lemma {:induction false} DirectoryKeepsWrite(outcomes: seq<Outcome>, j: nat)
    requires j < |outcomes| && Written(outcomes[j]).Some?
    requires forall k :: j < k < |outcomes| && Written(outcomes[k]).Some? ==>
               Written(outcomes[k]).value.path != Written(outcomes[j]).value.path
    ensures Written(outcomes[j]).value.path in Directory(outcomes)
    ensures Directory(outcomes)[Written(outcomes[j]).value.path] == Written(outcomes[j]).value.bytes
    decreases |outcomes|
  {
    var n := |outcomes|;
    if j < n - 1 {
      var before := outcomes[..n - 1];
      assert before[j] == outcomes[j];
      DirectoryKeepsWrite(before, j);
    }
  }

  /** A ".pdf" link outside the NY Senate is fetched directly and saved
      under its own last segment. */
  lemma DirectFetchOwnName(base: string, stem: string)
    requires '/' !in stem && !Contains(base + "/" + stem + PdfSuffix, NySenateHost)
    ensures Classify(base + "/" + stem + PdfSuffix) == DirectFetch
    ensures OutputFilename(base + "/" + stem + PdfSuffix) == stem + PdfSuffix
  {
    var name := stem + PdfSuffix;
    assert base + "/" + stem + PdfSuffix == base + "/" + name;
    EndsWithPdfAfterAppend(base + "/" + stem);
    forall k | 0 <= k < |name|
      ensures name[k] != '/'
    {
      if k < |stem| {
        assert name[k] == stem[k];
      }
    }
    SegmentAfterLastSlash(base, name);
    EndsWithPdfAfterAppend(stem);
  }

  /** A NY Senate download link `p + "/download"` is rendered from `p`, and
      the file is still named "download.pdf". */
  lemma NySenateRewrite(head: string, rest: string)
    ensures Classify(head + NySenateHost + rest + BrokenSuffix) == RewriteThenRender(head + NySenateHost + rest)
    ensures OutputFilename(head + NySenateHost + rest + BrokenSuffix) == "download.pdf"
  {
    var fixed := head + NySenateHost + rest;
    var url := fixed + BrokenSuffix;
    ContainsMiddle(head, NySenateHost, rest + BrokenSuffix);
    assert head + NySenateHost + (rest + BrokenSuffix) == url;
    assert url[|url| - |BrokenSuffix|..] == BrokenSuffix;
    assert url[..|url| - |BrokenSuffix|] == fixed;
    RewrittenNameFromOriginal(url);
  }
}
