/**
  The Semantic Scholar source adapter without its I/O: the request
  parameters it derives from the arguments (result limit and year range),
  the per-item conversion of a decoded JSON search result into a Paper,
  the client-side date filter, and `get_details`.
 */
module SemanticScholar {
  import opened Wrappers
  import opened Text
  import opened Values
  import opened Papers
  import opened Dates

  // ---------------------------------------------------------------------------
  // Decoded JSON
  // ---------------------------------------------------------------------------

  /** The `externalIds` object; only `DOI` is kept (the `ArXiv` id is read and discarded). */
  datatype ExternalIds = ExternalIds(doi: Option<string>, arxiv: Option<string>)

  /**
    One element of the response's `data` list. `title`, `paperId` and
    `url` are None when the key is absent. `openAccessPdf` and `journal`
    are None when the key is absent or its object is falsy (null or
    empty), and otherwise hold that object's `url` / `name` (None when the
    object has no such key). Each author is its `name`, None when the
    author object has no `name` key.
   */
  datatype Item = Item(
    paperId: Option<string>,
    title: Option<string>,
    abstractField: Field<string>,
    authors: Field<seq<Option<string>>>,
    year: Field<int>,
    publicationDate: Field<string>,
    citationCount: Field<int>,
    url: Option<string>,
    openAccessPdf: Option<Option<string>>,
    journal: Option<Option<string>>,
    externalIds: Field<ExternalIds>)

  /** The query string the adapter sends: `limit` and the optional `year` range. */
  datatype Params = Params(query: string, limit: int, year: Option<string>)

  /** The HTTP exchange: a request/HTTP failure, or a JSON body whose `data` key is read. */
  datatype Reply = Failed | Body(data: Field<seq<Item>>)

  /** What one call to `search` produced: the parameters it sent and the papers it returned. */
  datatype SearchCall = SearchCall(params: Params, papers: seq<Paper>)

  const ApiLimit: int := 100
  const NoAbstract: string := "无摘要"
  const UnknownDate: string := "Unknown"
  const PaperPage: string := "https://www.semanticscholar.org/paper/"

  // ---------------------------------------------------------------------------
  // Request parameters
  // ---------------------------------------------------------------------------

  /**
    The `year` parameter: the first four characters of each active bound,
    joined by a dash, with an open side left empty; none without bounds.
   */
  function YearRange(start: Option<string>, end: Option<string>): (r: Option<string>)
    ensures r.Some? <==> Active(start) || Active(end)
    ensures Active(start) && Active(end) ==> r == Some(Take(start.value, 4) + "-" + Take(end.value, 4))
    ensures Active(start) && !Active(end) ==> r == Some(Take(start.value, 4) + "-")
    ensures !Active(start) && Active(end) ==> r == Some("-" + Take(end.value, 4))
  {
    if Active(start) then
      if Active(end) then Some(Take(start.value, 4) + "-" + Take(end.value, 4))
      else Some(Take(start.value, 4) + "-")
    else if Active(end) then Some("-" + Take(end.value, 4))
    else None
  }

  function BuildParams(keywords: string, maxResults: int, start: Option<string>, end: Option<string>): (r: Params)
    ensures r.query == keywords
    ensures r.limit <= ApiLimit && r.limit <= maxResults
    ensures r.limit == maxResults || r.limit == ApiLimit
    ensures r.year == YearRange(start, end)
  {
    Params(keywords, if maxResults < ApiLimit then maxResults else ApiLimit, YearRange(start, end))
  }

  /**
    With both bounds given (and dash-free years) the year parameter splits
    back into the two years at its one dash.
   */
  lemma YearRangeSplits(start: string, end: string)
    requires start != "" && end != ""
    requires '-' !in Take(start, 4) && '-' !in Take(end, 4)
    ensures YearRange(Some(start), Some(end)).Some?
    ensures SplitOn(YearRange(Some(start), Some(end)).value, '-') == [Take(start, 4), Take(end, 4)]
  {
    var ws := [Take(start, 4), Take(end, 4)];
    JoinCons(ws[0], [ws[1]], "-");
    assert Join(ws, "-") == Take(start, 4) + "-" + Take(end, 4);
    JoinSplitOn(ws, '-');
  }

  // ---------------------------------------------------------------------------
  // Item conversion
  // ---------------------------------------------------------------------------

  /** `data.get('abstract', '') or '无摘要'` */
  function AbstractOf(f: Field<string>): (r: string)
    ensures r != ""
    ensures f.Val? && f.v != "" ==> r == f.v
  {
    if f.Val? && f.v != "" then f.v else NoAbstract
  }

  /** `str(data['year'])`: a null year prints as `None`. */
  function YearText(y: Field<int>): string
    requires !y.Absent?
  {
    if y.Null? then "None" else IntToStr(y.v)
  }

  /**
    The publication date after the year fallback, "" standing for any
    falsy value: a missing, null or empty `publicationDate` is replaced by
    `<year>-01-01` when the item has a `year` key at all.
   */
  function PubDate(item: Item): (r: string)
    ensures item.publicationDate.Val? && item.publicationDate.v != "" ==> r == item.publicationDate.v
    ensures !(item.publicationDate.Val? && item.publicationDate.v != "") && item.year.Val? ==>
      r == IntToStr(item.year.v) + "-01-01"
    ensures r == "" <==> !(item.publicationDate.Val? && item.publicationDate.v != "") && item.year.Absent?
  {
    if item.publicationDate.Val? && item.publicationDate.v != "" then item.publicationDate.v
    else if !item.year.Absent? then YearText(item.year) + "-01-01"
    else ""
  }

  /** `data.get('citationCount', 0)`: a missing count is zero, a null one stays None. */
  function Citations(c: Field<int>): (r: Option<int>)
    ensures c.Absent? ==> r == Some(0)
    ensures c.Null? ==> r.None?
    ensures c.Val? ==> r == Some(c.v)
  {
    match c
    case Absent => Some(0)
    case Null => None
    case Val(n) => Some(n)
  }

  /**
    Reading `authors` or `externalIds` raises when the key holds null
    (iterating `None`, calling `.get` on `None`); the `try` turns that into
    a skipped item.
   */
  predicate Raises(item: Item) {
    item.authors.Null? || item.externalIds.Null?
  }

  /** A paper is dropped by the date filter only when its date is non-empty. */
  predicate Kept(item: Item, start: Option<string>, end: Option<string>) {
    PubDate(item) == "" || InRange(PubDate(item), start, end)
  }

  /** `_parse_paper`: None when the item raises or its date falls outside the bounds. */
  function ParseItem(item: Item, start: Option<string>, end: Option<string>): (r: Option<Paper>)
    ensures r.Some? <==> !Raises(item) && Kept(item, start, end)
    ensures r.Some? ==> r.value.source == "semantic_scholar" && r.value.categories == []
    ensures r.Some? ==> r.value.sourceId == item.paperId.GetOr("")
    ensures r.Some? ==> r.value.published == (if PubDate(item) == "" then UnknownDate else PubDate(item))
    ensures r.Some? ==> r.value.abstractText == AbstractOf(item.abstractField)
    ensures r.Some? ==> r.value.citations == Citations(item.citationCount)
    ensures r.Some? ==> r.value.updated.None? && r.value.aiSummary.None?
    ensures r.Some? && item.url.None? ==> r.value.url == PaperPage + item.paperId.GetOr("")
    ensures r.Some? && item.externalIds.Absent? ==> r.value.doi.None?
    ensures r.Some? && item.openAccessPdf.None? ==> r.value.pdfUrl.None?
  {
    if Raises(item) || !Kept(item, start, end) then None
    else
      var paperId := item.paperId.GetOr("");
      var date := PubDate(item);
      Some(Papers.Create(
        item.title.GetOr(""),
        match item.authors case Val(names) => Present(names) case _ => [],
        AbstractOf(item.abstractField),
        if date == "" then UnknownDate else date,
        "semantic_scholar",
        paperId,
        item.url.GetOr(PaperPage + paperId),
        None,
        match item.externalIds case Val(ids) => ids.doi case _ => None,
        match item.openAccessPdf case Some(u) => u case None => None,
        match item.journal case Some(n) => n case None => None,
        Some([]),
        Citations(item.citationCount),
        None))
  }

  /**
    The remaining fields of a parsed item: the title (empty when absent),
    the authors that have a `name`, in order, the page URL when given, the
    DOI, the open-access PDF address and the journal name as given.
   */
  lemma ParseItemFields(item: Item, start: Option<string>, end: Option<string>)
    requires ParseItem(item, start, end).Some?
    ensures var p := ParseItem(item, start, end).value;
      && p.title == item.title.GetOr("")
      && p.authors == (if item.authors.Val? then Present(item.authors.v) else [])
      && (item.url.Some? ==> p.url == item.url.value)
    ensures var p := ParseItem(item, start, end).value;
      && (item.externalIds.Val? ==> p.doi == item.externalIds.v.doi)
      && (item.openAccessPdf.Some? ==> p.pdfUrl == item.openAccessPdf.value)
      && p.journal == (if item.journal.Some? then item.journal.value else None)
  {
  }

  /** The loop over `data['data']`: the papers of the items that parse, in order. */
  function ParseItems(items: seq<Item>, start: Option<string>, end: Option<string>): (r: seq<Paper>)
    ensures |r| <= |items|
    ensures forall k :: 0 <= k < |r| ==> r[k].source == "semantic_scholar"
    ensures forall k :: 0 <= k < |r| ==> r[k].published == UnknownDate || InRange(r[k].published, start, end)
    decreases |items|
  {
    if |items| == 0 then []
    else
      var rest := ParseItems(items[1..], start, end);
      match ParseItem(items[0], start, end)
      case Some(p) => [p] + rest
      case None => rest
  }

  /**
    `SemanticScholarSource.search`: the parameters it sends and the
    papers it returns. A failed request, a body without `data` and a null
    `data` (iterating it raises) all yield no papers.
   */
  function Search(keywords: string, maxResults: int, start: Option<string>, end: Option<string>, reply: Reply): (r: SearchCall)
    ensures r.params == BuildParams(keywords, maxResults, start, end)
    ensures (reply.Failed? || !reply.data.Val?) ==> r.papers == []
    ensures reply.Body? && reply.data.Val? ==> r.papers == ParseItems(reply.data.v, start, end)
  {
    var params := BuildParams(keywords, maxResults, start, end);
    match reply
    case Body(Val(items)) => SearchCall(params, ParseItems(items, start, end))
    case _ => SearchCall(params, [])
  }

  /** `get_details`: the item fetched by id, converted without date bounds; None when the request fails. */
  function GetDetails(reply: Option<Item>): (r: Option<Paper>)
    ensures reply.None? ==> r.None?
    ensures reply.Some? ==> (r.Some? <==> !Raises(reply.value))
    ensures reply.Some? ==> r == ParseItem(reply.value, None, None)
  {
    match reply
    case None => None
    case Some(item) => ParseItem(item, None, None)
  }

  /** `get_pdf_url`: the open-access URL recorded on the paper, if any. */
  function GetPdfUrl(p: Paper): (r: Option<string>)
    ensures r == p.pdfUrl
  {
    p.pdfUrl
  }

  // ---------------------------------------------------------------------------
  // Properties
  // ---------------------------------------------------------------------------

  /**
    Items that raise or fall outside the bounds are dropped and the rest
    kept in order: parsing a concatenation is the concatenation of the parses.
   */
  lemma {:induction false} ParseItemsAppend(a: seq<Item>, b: seq<Item>, start: Option<string>, end: Option<string>)
    ensures ParseItems(a + b, start, end) == ParseItems(a, start, end) + ParseItems(b, start, end)
    decreases |a|
  {
    if |a| == 0 {
      assert a + b == b;
    } else {
      assert (a + b)[0] == a[0];
      assert (a + b)[1..] == a[1..] + b;
      ParseItemsAppend(a[1..], b, start, end);
    }
  }

  /** A single item yields its paper when it parses, and nothing otherwise. */
  lemma ParseItemsOne(item: Item, start: Option<string>, end: Option<string>)
    ensures ParseItems([item], start, end) ==
      (if ParseItem(item, start, end).Some? then [ParseItem(item, start, end).value] else [])
  {
    assert [item][1..] == [];
  }

  /** The year range is coarser than the client-side filter: a date in the requested year can still be dropped. */
  lemma RefiltersByDay()
    ensures YearRange(Some("2024-06-01"), None) == Some("2024-")
    ensures var item := Item(Some("p"), Some("t"), Absent, Val([]), Absent, Val("2024-03-15"),
                             Absent, None, None, None, Absent);
            ParseItem(item, Some("2024-06-01"), None).None?
  {
    var item := Item(Some("p"), Some("t"), Absent, Val([]), Absent, Val("2024-03-15"),
                     Absent, None, None, None, Absent);
    assert Take("2024-06-01", 4) == "2024";
    assert Active(Some("2024-06-01")) && !Active(None);
    assert "2024" + "-" == "2024-";
    assert PubDate(item) == "2024-03-15";
    assert LexLess("2024-03-15", "2024-06-01");
  }

  /** An item with only a year is dated 1 January of that year, so a later start bound in the same year drops it. */
  lemma YearOnlyIsJanuaryFirst(y: int)
    ensures var item := Item(Some("p"), Some("t"), Absent, Val([]), Val(y), Absent,
                             Absent, None, None, None, Absent);
            PubDate(item) == IntToStr(y) + "-01-01"
  {
  }

  /** Without date bounds nothing is filtered: an item parses exactly when it does not raise. */
  lemma NoBoundsKeepsAll(item: Item)
    ensures ParseItem(item, None, None).Some? <==> !Raises(item)
  {
  }

  /** An item with a missing or empty date is never filtered and is published as "Unknown". */
  lemma UndatedIsUnknown(item: Item, start: Option<string>, end: Option<string>)
    requires !Raises(item) && PubDate(item) == ""
    ensures ParseItem(item, start, end).Some?
    ensures ParseItem(item, start, end).value.published == UnknownDate
  {
  }
}
