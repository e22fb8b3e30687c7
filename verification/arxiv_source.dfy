/**
  The arXiv source adapter without its I/O: the retry/backoff loop over a
  scripted sequence of HTTP outcomes, the per-entry field extraction from
  an already-parsed Atom feed, the inclusive date filter and the PDF URL
  fallback.
 */
module ArxivSource {
  import opened Wrappers
  import opened Text
  import opened Values
  import opened Papers
  import opened Dates

  // ---------------------------------------------------------------------------
  // Parsed feed
  // ---------------------------------------------------------------------------

  /** One `<link>` element: its `type`, `title` and `href` attributes. */
  datatype Link = Link(linkType: Option<string>, linkTitle: Option<string>, href: Option<string>)

  /**
    One `<entry>` of the Atom feed. A None text field stands for a missing
    element (or one without text), which makes the source's `.text` access
    raise; `updated` distinguishes a missing element (None) from one
    without text (Some(None)). Each author is the text of its `<name>`
    child, None when the child is absent; each category is its `term`.
   */
  datatype Entry = Entry(
    title: Option<string>,
    summary: Option<string>,
    published: Option<string>,
    updated: Option<Option<string>>,
    authorNames: seq<Option<string>>,
    links: seq<Link>,
    id: Option<string>,
    categoryTerms: seq<Option<string>>,
    doi: Option<string>)

  /** The response body: XML the parser rejects, or the list of entries. */
  datatype Feed = Malformed | Entries(entries: seq<Entry>)

  /** What became of one entry. */
  datatype EntryOutcome = Kept(paper: Paper) | Filtered | Failed

  /** `published.split('T')[0]`: the date part of an ISO timestamp. */
  function DatePart(published: string): string {
    FirstPiece(published, "T")
  }

  // ---------------------------------------------------------------------------
  // Entry extraction
  // ---------------------------------------------------------------------------

  /** `text.strip().replace('\n', ' ')` */
  function CleanText(t: string): string {
    ReplaceAll(Strip(t), "\n", " ")
  }

  /** Later links override earlier ones; an html link sets the page URL, a `pdf`-titled one the PDF URL. */
  function ScanLinks(links: seq<Link>, url: Option<string>, pdf: Option<string>): (r: (Option<string>, Option<string>))
    decreases |links|
  {
    if |links| == 0 then (url, pdf)
    else
      var l := links[0];
      if l.linkType == Some("text/html") then ScanLinks(links[1..], l.href, pdf)
      else if l.linkTitle == Some("pdf") then ScanLinks(links[1..], url, l.href)
      else ScanLinks(links[1..], url, pdf)
  }

  /** Keep the terms that are given and non-empty, in order. */
  function NonEmptyTerms(xs: seq<Option<string>>): (r: seq<string>)
    ensures |r| <= |xs|
    ensures forall s :: s in r <==> s != "" && Some(s) in xs
  {
    if |xs| == 0 then []
    else
      var rest := NonEmptyTerms(xs[1..]);
      assert xs == [xs[0]] + xs[1..];
      if xs[0].Some? && xs[0].value != "" then [xs[0].value] + rest else rest
  }

  /** One category: its term when it is given and non-empty, nothing otherwise. */
  lemma NonEmptyTermsOne(x: Option<string>)
    ensures NonEmptyTerms([x]) == (if x.Some? && x.value != "" then [x.value] else [])
  {
    assert [x][1..] == [];
  }

  /** The terms of consecutive categories are kept side by side, in order and with repeats. */
  lemma {:induction false} NonEmptyTermsAppend(a: seq<Option<string>>, b: seq<Option<string>>)
    ensures NonEmptyTerms(a + b) == NonEmptyTerms(a) + NonEmptyTerms(b)
    decreases |a|
  {
    if |a| == 0 {
      assert a + b == b;
    } else {
      assert (a + b)[0] == a[0] && (a + b)[1..] == a[1..] + b;
      NonEmptyTermsAppend(a[1..], b);
    }
  }

  /** `x or default` for an optional string. */
  function OrElse(x: Option<string>, default: string): string {
    if x.Some? && x.value != "" then x.value else default
  }

  function AbsUrl(id: string): string { "https://arxiv.org/abs/" + id }

  function PdfUrl(id: string): string { "https://arxiv.org/pdf/" + id + ".pdf" }

  /** `id_text.split('/abs/')[-1]` */
  function IdFromEntryId(idText: string): string {
    LastPiece(idText, "/abs/")
  }

  /**
    The body of the per-entry `try` block: read title, summary and dates,
    apply the date filter, then authors, links, id, categories and DOI.
   */
  function ParseEntry(e: Entry, start: Option<string>, end: Option<string>): (r: EntryOutcome)
    ensures r.Kept? <==>
      && e.title.Some? && e.summary.Some? && e.published.Some? && e.updated.Some?
      && InRange(DatePart(e.published.value), start, end) && e.id.Some?
    ensures r.Filtered? <==>
      && e.title.Some? && e.summary.Some? && e.published.Some? && e.updated.Some?
      && !InRange(DatePart(e.published.value), start, end)
    ensures r.Kept? ==> r.paper.published == e.published.value && r.paper.updated == e.updated.value
    ensures r.Kept? ==> r.paper.source == "arxiv" && r.paper.sourceId == IdFromEntryId(e.id.value)
    ensures r.Kept? ==> r.paper.title == CleanText(e.title.value)
    ensures r.Kept? ==> r.paper.abstractText == CleanText(e.summary.value)
    ensures r.Kept? ==> r.paper.pdfUrl.Some? && r.paper.pdfUrl.value != "" && r.paper.url != ""
  {
    if e.title.None? || e.summary.None? || e.published.None? || e.updated.None? then Failed
    else if !InRange(DatePart(e.published.value), start, end) then Filtered
    else if e.id.None? then Failed
    else
      var links := ScanLinks(e.links, None, None);
      var id := IdFromEntryId(e.id.value);
      Kept(Papers.Create(
        CleanText(e.title.value), Present(e.authorNames), CleanText(e.summary.value),
        e.published.value, "arxiv", id,
        OrElse(links.0, AbsUrl(id)),
        e.updated.value, e.doi,
        Some(OrElse(links.1, PdfUrl(id))),
        None, Some(NonEmptyTerms(e.categoryTerms)), None, None))
  }

  /**
    The rest of a kept entry's paper: the authors that have a name, the
    non-empty category terms and the DOI as given, the page and PDF
    addresses from the links with the arXiv defaults, and no journal,
    citation count or summary.
   */
  lemma ParseEntryFields(e: Entry, start: Option<string>, end: Option<string>)
    requires ParseEntry(e, start, end).Kept?
    ensures var p := ParseEntry(e, start, end).paper;
      && p.authors == Present(e.authorNames)
      && p.categories == NonEmptyTerms(e.categoryTerms)
      && p.doi == e.doi
      && p.journal.None? && p.citations.None? && p.aiSummary.None?
    ensures var p, id, links := ParseEntry(e, start, end).paper, IdFromEntryId(e.id.value), ScanLinks(e.links, None, None);
      && p.url == OrElse(links.0, AbsUrl(id))
      && p.pdfUrl == Some(OrElse(links.1, PdfUrl(id)))
  {
  }

  /** What every paper of this adapter satisfies: tagged `arxiv`, inside the date window, with a PDF address. */
  predicate Fits(p: Paper, start: Option<string>, end: Option<string>) {
    p.source == "arxiv" && InRange(DatePart(p.published), start, end) && p.pdfUrl.Some? && p.pdfUrl.value != ""
  }

  /** The kept papers of a list of entries, in entry order. */
  function ParseEntries(es: seq<Entry>, start: Option<string>, end: Option<string>): (r: seq<Paper>)
    ensures |r| <= |es|
    ensures forall k :: 0 <= k < |r| ==> Fits(r[k], start, end)
    decreases |es|
  {
    if |es| == 0 then []
    else
      var rest := ParseEntries(es[1..], start, end);
      var o := ParseEntry(es[0], start, end);
      if o.Kept? then
        assert Fits(o.paper, start, end);
        assert forall k :: 0 < k < |[o.paper] + rest| ==> ([o.paper] + rest)[k] == rest[k - 1];
        [o.paper] + rest
      else rest
  }

  /** A single entry yields its paper when it is kept, and nothing otherwise. */
  lemma ParseEntriesOne(e: Entry, start: Option<string>, end: Option<string>)
    ensures ParseEntries([e], start, end) ==
      (if ParseEntry(e, start, end).Kept? then [ParseEntry(e, start, end).paper] else [])
  {
    assert [e][1..] == [];
  }

  /** The papers of consecutive entries are kept side by side, in entry order. */
  lemma {:induction false} ParseEntriesAppend(a: seq<Entry>, b: seq<Entry>, start: Option<string>, end: Option<string>)
    ensures ParseEntries(a + b, start, end) == ParseEntries(a, start, end) + ParseEntries(b, start, end)
    decreases |a|
  {
    if |a| == 0 {
      assert a + b == b;
    } else {
      assert (a + b)[0] == a[0] && (a + b)[1..] == a[1..] + b;
      ParseEntriesAppend(a[1..], b, start, end);
    }
  }

  /** `_parse_response`: an XML-level parse error yields no papers. */
  function ParseResponse(feed: Feed, start: Option<string>, end: Option<string>): (r: seq<Paper>)
    ensures feed.Malformed? ==> r == []
    ensures feed.Entries? ==> r == ParseEntries(feed.entries, start, end)
  {
    match feed
    case Malformed => []
    case Entries(es) => ParseEntries(es, start, end)
  }

  /** A failing or filtered entry is dropped and the others are kept, in order. */
  lemma {:induction false} ParseEntriesSkips(a: seq<Entry>, e: Entry, b: seq<Entry>, start: Option<string>, end: Option<string>)
    requires !ParseEntry(e, start, end).Kept?
    ensures ParseEntries(a + [e] + b, start, end) == ParseEntries(a + b, start, end)
    decreases |a|
  {
    if |a| == 0 {
      assert a + [e] + b == [e] + b;
      assert ([e] + b)[1..] == b;
      assert a + b == b;
    } else {
      assert (a + [e] + b)[0] == a[0] && (a + b)[0] == a[0];
      assert (a + [e] + b)[1..] == a[1..] + [e] + b;
      assert (a + b)[1..] == a[1..] + b;
      ParseEntriesSkips(a[1..], e, b, start, end);
    }
  }

  // ---------------------------------------------------------------------------
  // Retry loop
  // ---------------------------------------------------------------------------

  /**
    One scripted outcome of `requests.get`: status 429, another HTTP
    error status (raised by `raise_for_status`), any other exception
    (timeout, connection error), or a successful body.
   */
  datatype Response = RateLimited | HttpError | OtherError | Ok(feed: Feed)

  /** One call to `search`: the papers, how many requests it issued, and the sleeps in order (seconds). */
  datatype SearchRun = SearchRun(papers: seq<Paper>, requests: nat, sleeps: seq<nat>)

  const MaxRetries: nat := 3
  const InitialDelay: nat := 3
  const Cooldown: nat := 1

  predicate Retryable(r: Response) {
    r.RateLimited? || r.HttpError?
  }

  /** `n` delays starting at `d`, each twice the previous one. */
  function Backoff(d: nat, n: nat): (r: seq<nat>)
    ensures |r| == n
    ensures n > 0 ==> r[0] == d
    decreases n
  {
    if n == 0 then [] else [d] + Backoff(2 * d, n - 1)
  }

  /** Each backoff delay after the first is twice the one before it. */
  lemma {:induction false} BackoffDoubles(d: nat, n: nat, i: nat)
    requires 0 < i < n
    ensures Backoff(d, n)[i] == 2 * Backoff(d, n)[i - 1]
    decreases n
  {
    assert Backoff(d, n)[1..] == Backoff(2 * d, n - 1);
    if i > 1 {
      BackoffDoubles(2 * d, n - 1, i - 1);
    }
  }

  /** The papers the final request yields: the parsed feed of a success, nothing otherwise. */
  function Harvest(last: Response, start: Option<string>, end: Option<string>): (r: seq<Paper>)
    ensures r != [] ==> last.Ok?
    ensures forall k :: 0 <= k < |r| ==> Fits(r[k], start, end)
  {
    if last.Ok? then ParseResponse(last.feed, start, end) else []
  }

  /** The sleep after the final request: the cooldown after a success, none otherwise. */
  function Pause(last: Response): (r: seq<nat>)
    ensures |r| <= 1
  {
    if last.Ok? then [Cooldown] else []
  }

  /** The control flow of the loop: how many requests were issued, and the sleeps in order (seconds). */
  datatype Attempts = Attempts(requests: nat, sleeps: seq<nat>)

  /**
    The loop over the remaining attempts: `tries` holds the response each
    of them would get, and `delay` is the next backoff delay. A 429 or an
    HTTP error sleeps and retries while attempts remain; a success sleeps
    the cooldown and stops; any other exception stops at once.
   */
  function SearchFrom(tries: seq<Response>, delay: nat): (r: Attempts)
    requires |tries| >= 1
    ensures 1 <= r.requests <= |tries|
    ensures forall i :: 0 <= i < r.requests - 1 ==> Retryable(tries[i])
    ensures !Retryable(tries[r.requests - 1]) || r.requests == |tries|
    ensures r.sleeps == Backoff(delay, r.requests - 1) + Pause(tries[r.requests - 1])
    decreases |tries|
  {
    var resp := tries[0];
    if resp.Ok? then Attempts(1, [Cooldown])
    else if resp.OtherError? || |tries| == 1 then Attempts(1, [])
    else
      var rest := SearchFrom(tries[1..], 2 * delay);
      Attempts(rest.requests + 1, [delay] + rest.sleeps)
  }

  /**
    `ArxivSource.search` over a scripted sequence of responses, one per
    request it may issue: the papers are those of the final response.
   */
  function Search(script: seq<Response>, start: Option<string>, end: Option<string>): (r: SearchRun)
    requires |script| >= MaxRetries
    ensures 1 <= r.requests <= MaxRetries
    ensures forall i :: 0 <= i < r.requests - 1 ==> Retryable(script[i])
    ensures !Retryable(script[r.requests - 1]) || r.requests == MaxRetries
    ensures r.papers == Harvest(script[r.requests - 1], start, end)
    ensures r.papers != [] ==> script[r.requests - 1].Ok?
    ensures r.sleeps == Backoff(InitialDelay, r.requests - 1) + Pause(script[r.requests - 1])
    ensures |r.sleeps| <= MaxRetries
    ensures forall k :: 0 <= k < |r.papers| ==> r.papers[k].source == "arxiv"
    ensures forall k :: 0 <= k < |r.papers| ==> InRange(DatePart(r.papers[k].published), start, end)
  {
    var a := SearchFrom(script[..MaxRetries], InitialDelay);
    assert script[..MaxRetries][a.requests - 1] == script[a.requests - 1];
    SearchRun(Harvest(script[a.requests - 1], start, end), a.requests, a.sleeps)
  }

  /** Three rate-limited answers: three requests, sleeps of 3 s then 6 s, and no papers. */
  lemma ThreeRateLimits(start: Option<string>, end: Option<string>)
    ensures Search([RateLimited, RateLimited, RateLimited], start, end) == SearchRun([], 3, [3, 6])
  {
    var s := [RateLimited, RateLimited, RateLimited];
    var r := Search(s, start, end);
    assert r.requests == 3;
  }

  /** A retryable answer followed by another exception: two requests, one 3-second sleep, no papers. */
  lemma RetryThenOtherErrorStops(script: seq<Response>, start: Option<string>, end: Option<string>)
    requires |script| >= MaxRetries && Retryable(script[0]) && script[1] == OtherError
    ensures Search(script, start, end) == SearchRun([], 2, [3])
  {
    var r := Search(script, start, end);
    assert r.requests == 2;
    assert Backoff(InitialDelay, 1) == [3];
  }

  /** An exception other than an HTTP error ends the call at once, without sleeping. */
  lemma OtherErrorStops(script: seq<Response>, start: Option<string>, end: Option<string>)
    requires |script| >= MaxRetries && script[0] == OtherError
    ensures Search(script, start, end) == SearchRun([], 1, [])
  {
  }

  /**
    A success after `k` failures parses that body and sleeps the backoff
    delays followed by exactly one 1-second cooldown.
   */
  lemma {:induction false} SuccessAfterRetries(script: seq<Response>, k: nat, start: Option<string>, end: Option<string>)
    requires |script| >= MaxRetries && k < MaxRetries
    requires forall i :: 0 <= i < k ==> Retryable(script[i])
    requires script[k].Ok?
    ensures Search(script, start, end) == SearchRun(ParseResponse(script[k].feed, start, end), k + 1, Backoff(InitialDelay, k) + [Cooldown])
  {
    var tries := script[..MaxRetries];
    assert tries[k] == script[k];
    SearchFromSuccess(tries, k, InitialDelay);
  }

  /** In the loop, a success after `k` retryable answers stops there, after `k` backoff sleeps and the cooldown. */
  lemma {:induction false} SearchFromSuccess(tries: seq<Response>, k: nat, delay: nat)
    requires k < |tries|
    requires forall i :: 0 <= i < k ==> Retryable(tries[i])
    requires tries[k].Ok?
    ensures SearchFrom(tries, delay) == Attempts(k + 1, Backoff(delay, k) + [Cooldown])
    decreases k
  {
    if k > 0 {
      assert tries[1..][k - 1] == tries[k];
      SearchFromSuccess(tries[1..], k - 1, 2 * delay);
    }
  }

  /** With a 429 or HTTP error on every attempt the call gives up after the third, sleeping 3 s and 6 s. */
  lemma {:induction false} AllRetryableGivesUp(script: seq<Response>, start: Option<string>, end: Option<string>)
    requires |script| >= MaxRetries
    requires forall i :: 0 <= i < MaxRetries ==> Retryable(script[i])
    ensures Search(script, start, end) == SearchRun([], 3, [3, 6])
  {
    assert Backoff(3, 2) == [3, 6];
  }

  // ---------------------------------------------------------------------------
  // PDF URL and capabilities
  // ---------------------------------------------------------------------------

  /** `ArxivSource.get_pdf_url` */
  function GetPdfUrl(p: Paper): (r: Option<string>)
    ensures p.pdfUrl.Some? && p.pdfUrl.value != "" ==> r == p.pdfUrl
    ensures (p.pdfUrl.None? || p.pdfUrl.value == "") ==>
      r == (if p.source == "arxiv" && p.sourceId != "" then Some(PdfUrl(p.sourceId)) else None)
    ensures r.None? <==> (p.pdfUrl.None? || p.pdfUrl.value == "") && (p.source != "arxiv" || p.sourceId == "")
  {
    if p.pdfUrl.Some? && p.pdfUrl.value != "" then p.pdfUrl
    else if p.source == "arxiv" && p.sourceId != "" then Some(PdfUrl(p.sourceId))
    else None
  }

  /** Every paper this adapter builds has a PDF URL, and `get_pdf_url` returns it. */
  lemma ParsedPapersHavePdf(es: seq<Entry>, start: Option<string>, end: Option<string>)
    ensures forall k :: 0 <= k < |ParseEntries(es, start, end)| ==> GetPdfUrl(ParseEntries(es, start, end)[k]).Some?
  {
    var r := ParseEntries(es, start, end);
    forall k | 0 <= k < |r| ensures GetPdfUrl(r[k]).Some? {
      assert Fits(r[k], start, end);
    }
  }
}
