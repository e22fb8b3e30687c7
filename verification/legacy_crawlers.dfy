/**
  The two legacy crawler modules, which return plain dictionaries instead
  of Paper records. `ArxivCrawler` (in both arxiv_crawler.py and
  crawler.py) builds a boolean arXiv query from comma-separated keywords
  and an optional category, filters the library's results by calendar
  date and shapes each into a dictionary. `SemanticScholarCrawler` builds
  a `year` parameter and maps each returned item without filtering.
 */
module LegacyCrawlers {
  import opened Wrappers
  import opened Text
  import opened Values
  import opened Dates

  // ---------------------------------------------------------------------------
  // arXiv query string
  // ---------------------------------------------------------------------------

  /** `all:"<kw>"` */
  function Clause(kw: string): string {
    "all:\"" + kw + "\""
  }

  function Clauses(kws: seq<string>): (r: seq<string>)
    ensures |r| == |kws|
    ensures forall k :: 0 <= k < |kws| ==> r[k] == Clause(kws[k])
  {
    seq(|kws|, k requires 0 <= k < |kws| => Clause(kws[k]))
  }

  /** `[kw.strip() for kw in keywords.split(',')]` */
  function Terms(keywords: string): (r: seq<string>)
    ensures |r| == |SplitOn(keywords, ',')|
    ensures forall k :: 0 <= k < |r| ==> r[k] == Strip(SplitOn(keywords, ',')[k])
  {
    var pieces := SplitOn(keywords, ',');
    seq(|pieces|, k requires 0 <= k < |pieces| => Strip(pieces[k]))
  }

  /**
    The keyword clause: with a comma, the stripped terms OR-ed inside
    parentheses; without one, the keyword string itself, unstripped.
   */
  function KeywordClause(keywords: string): (r: string)
    ensures ',' !in keywords ==> r == Clause(keywords)
    ensures ',' in keywords ==> r == "(" + Join(Clauses(Terms(keywords)), " OR ") + ")"
  {
    SplitOnCount(keywords, ',');
    var terms := Terms(keywords);
    if |terms| > 1 then "(" + Join(Clauses(terms), " OR ") + ")"
    else Clause(keywords)
  }

  /** The parts joined by `" AND "`: the keyword clause when keywords are given, then `cat:<category>` when a category is given. */
  function QueryParts(keywords: string, category: Option<string>): (r: seq<string>)
    ensures |r| == (if keywords != "" then 1 else 0) + (if Active(category) then 1 else 0)
  {
    (if keywords != "" then [KeywordClause(keywords)] else [])
    + (if Active(category) then ["cat:" + category.value] else [])
  }

  /** The query `search_papers` sends. */
  function BuildQuery(keywords: string, category: Option<string>): (r: string)
    ensures keywords == "" && !Active(category) ==> r == ""
    ensures keywords != "" && !Active(category) ==> r == KeywordClause(keywords)
    ensures keywords == "" && Active(category) ==> r == "cat:" + category.value
    ensures keywords != "" && Active(category) ==> r == KeywordClause(keywords) + " AND cat:" + category.value
  {
    var parts := QueryParts(keywords, category);
    if keywords != "" && Active(category) then
      assert parts == [KeywordClause(keywords)] + ["cat:" + category.value];
      JoinCons(KeywordClause(keywords), ["cat:" + category.value], " AND ");
      Join(parts, " AND ")
    else Join(parts, " AND ")
  }

  /** The number of OR-ed terms is one more than the number of commas, and each is a stripped comma-separated piece. */
  lemma TermsRejoin(keywords: string)
    ensures Join(SplitOn(keywords, ','), ",") == keywords
    ensures |Terms(keywords)| > 1 <==> ',' in keywords
  {
    SplitOnJoin(keywords, ',');
    SplitOnCount(keywords, ',');
  }

  /** A single keyword, even one with surrounding spaces, is quoted as given. */
  lemma SingleKeywordUnstripped()
    ensures BuildQuery(" graph ", None) == "all:\"" + " graph " + "\""
  {
    assert ',' !in " graph ";
    assert KeywordClause(" graph ") == Clause(" graph ");
  }

  /** A category is attached after the keyword clause with AND. */
  lemma KeywordWithCategory(k: string, c: string)
    requires k != "" && ',' !in k && c != ""
    ensures BuildQuery(k, Some(c)) == "all:\"" + k + "\" AND cat:" + c
  {
    assert KeywordClause(k) == Clause(k);
  }

  // ---------------------------------------------------------------------------
  // arXiv results
  // ---------------------------------------------------------------------------

  /** One result of the `arxiv` library's search, with its publication date already reduced to a date. */
  datatype Result = Result(
    title: string,
    authorNames: seq<string>,
    summary: string,
    pdfUrl: string,
    entryId: string,
    published: Date,
    categories: seq<string>,
    primaryCategory: string)

  /** `result.entry_id.split('/')[-1]` */
  function IdFromEntryId(entryId: string): (r: string)
    ensures '/' !in r
  {
    SplitOnPiecesFree(entryId, '/');
    assert SplitStr(entryId, "/") == SplitOn(entryId, '/');
    LastPiece(entryId, "/")
  }

  /** `summary.replace('\n', ' ')` */
  function OneLine(s: string): (r: string)
    ensures |r| == |s|
    ensures forall i :: 0 <= i < |s| ==> r[i] == (if s[i] == '\n' then ' ' else s[i])
  {
    ReplaceCharPointwise(s, '\n', ' ');
    ReplaceAll(s, "\n", " ")
  }

  /** No line break is left in a shaped summary. */
  lemma OneLineHasNoBreak(s: string)
    ensures '\n' !in OneLine(s)
  {
    var r := OneLine(s);
    assert forall i :: 0 <= i < |r| ==> r[i] != '\n';
  }

  const ResultKeys: set<string> := {
    "title", "authors", "summary", "pdf_url", "arxiv_id", "published", "categories", "primary_category"
  }

  /**
    The dictionary built for a kept result; crawler.py adds
    `"source": "arxiv"`, arxiv_crawler.py does not.
   */
  function ResultDict(r: Result, withSource: bool, arxivId: string): (d: Dict)
    requires Valid(r.published)
    ensures d.Keys == ResultKeys + (if withSource then {"source"} else {})
    ensures withSource ==> d["source"] == Str("arxiv")
    ensures d["arxiv_id"] == Str(arxivId)
  {
    map k | k in ResultKeys + (if withSource then {"source"} else {}) :: ResultField(r, arxivId, k)
  }

  /** A result shaped with an id free of `/` is tagged. */
  lemma ResultDictTagged(r: Result, withSource: bool, arxivId: string)
    requires Valid(r.published) && '/' !in arxivId
    ensures IdTagged(ResultDict(r, withSource, arxivId), withSource)
  {
    var d := ResultDict(r, withSource, arxivId);
    assert "arxiv_id" in ResultKeys;
    assert d["arxiv_id"] == Str(arxivId);
  }

  /** The remaining values of a result's dictionary: the date formatted, the summary on one line, the other fields copied. */
  lemma ResultDictFields(r: Result, withSource: bool, arxivId: string)
    requires Valid(r.published)
    ensures var d := ResultDict(r, withSource, arxivId);
      && d["published"] == Str(Format(r.published))
      && d["summary"] == Str(OneLine(r.summary))
      && d["title"] == Str(r.title) && d["authors"] == Strs(r.authorNames)
      && d["pdf_url"] == Str(r.pdfUrl)
      && d["categories"] == Strs(r.categories) && d["primary_category"] == Str(r.primaryCategory)
  {
  }

  /** The value `search_papers` stores under key `k` of a result's dictionary. */
  function ResultField(r: Result, arxivId: string, k: string): Value
    requires Valid(r.published)
  {
    if k == "title" then Str(r.title)
    else if k == "authors" then Strs(r.authorNames)
    else if k == "summary" then Str(OneLine(r.summary))
    else if k == "pdf_url" then Str(r.pdfUrl)
    else if k == "arxiv_id" then Str(arxivId)
    else if k == "published" then Str(Format(r.published))
    else if k == "categories" then Strs(r.categories)
    else if k == "primary_category" then Str(r.primaryCategory)
    else Str("arxiv")
  }

  /** A shaped result: its id has no `/`, and it carries the `arxiv` source tag when the crawler adds one. */
  predicate IdTagged(d: Dict, withSource: bool) {
    && "arxiv_id" in d && d["arxiv_id"].Str? && '/' !in d["arxiv_id"].s
    && (withSource ==> "source" in d && d["source"] == Str("arxiv"))
  }

  /**
    `search_papers` after the library call: results outside the inclusive
    date window are skipped, the rest shaped in library order.
   */
  function FilterResults(results: seq<Result>, start: Option<Date>, end: Option<Date>, withSource: bool): (r: seq<Dict>)
    requires forall k :: 0 <= k < |results| ==> Valid(results[k].published)
    ensures |r| <= |results|
    decreases |results|
  {
    if |results| == 0 then []
    else
      var rest := FilterResults(results[1..], start, end, withSource);
      var x := results[0];
      if DateInRange(x.published, start, end) then
        [ResultDict(x, withSource, IdFromEntryId(x.entryId))] + rest
      else rest
  }

  /** The results kept, as a reference: those whose date lies in the window, in order. */
  function InWindow(results: seq<Result>, start: Option<Date>, end: Option<Date>): (r: seq<Result>)
    requires forall k :: 0 <= k < |results| ==> Valid(results[k].published)
    ensures |r| <= |results|
    ensures forall k :: 0 <= k < |r| ==> Valid(r[k].published) && DateInRange(r[k].published, start, end)
    decreases |results|
  {
    if |results| == 0 then []
    else
      var rest := InWindow(results[1..], start, end);
      if DateInRange(results[0].published, start, end) then [results[0]] + rest else rest
  }

  /** A single result is kept exactly when its date lies in the window. */
  lemma InWindowOne(x: Result, start: Option<Date>, end: Option<Date>)
    requires Valid(x.published)
    ensures InWindow([x], start, end) == (if DateInRange(x.published, start, end) then [x] else [])
  {
    assert [x][1..] == [];
  }

  /** The kept results of consecutive lists stay side by side, in order. */
  lemma {:induction false} InWindowAppend(a: seq<Result>, b: seq<Result>, start: Option<Date>, end: Option<Date>)
    requires forall k :: 0 <= k < |a| ==> Valid(a[k].published)
    requires forall k :: 0 <= k < |b| ==> Valid(b[k].published)
    ensures InWindow(a + b, start, end) == InWindow(a, start, end) + InWindow(b, start, end)
    decreases |a|
  {
    if |a| == 0 {
      assert a + b == b;
    } else {
      assert (a + b)[0] == a[0] && (a + b)[1..] == a[1..] + b;
      InWindowAppend(a[1..], b, start, end);
    }
  }

  /** Each result shaped into its dictionary, in order. */
  function ShapeAll(rs: seq<Result>, withSource: bool): (r: seq<Dict>)
    requires forall k :: 0 <= k < |rs| ==> Valid(rs[k].published)
    ensures |r| == |rs|
    ensures forall k :: 0 <= k < |rs| ==> r[k] == ResultDict(rs[k], withSource, IdFromEntryId(rs[k].entryId))
  {
    seq(|rs|, k requires 0 <= k < |rs| && Valid(rs[k].published) => ResultDict(rs[k], withSource, IdFromEntryId(rs[k].entryId)))
  }

  /** A sequence whose head is `d` and whose later elements are those of `t` is `[d] + t`. */
  lemma ConsOf(l: seq<Dict>, d: Dict, t: seq<Dict>)
    requires |l| == |t| + 1 && l[0] == d
    requires forall k :: 1 <= k < |l| ==> l[k] == t[k - 1]
    ensures l == [d] + t
  {
    assert l[1..] == t;
  }

  lemma ShapeAllCons(x: Result, tail: seq<Result>, withSource: bool)
    requires Valid(x.published)
    requires forall k :: 0 <= k < |tail| ==> Valid(tail[k].published)
    ensures ShapeAll([x] + tail, withSource) == [ResultDict(x, withSource, IdFromEntryId(x.entryId))] + ShapeAll(tail, withSource)
  {
    var xs := [x] + tail;
    assert xs[1..] == tail;
    var l, t := ShapeAll(xs, withSource), ShapeAll(tail, withSource);
    forall k | 1 <= k < |l| ensures l[k] == t[k - 1] {
      assert xs[k] == xs[1..][k - 1];
    }
    ConsOf(l, ResultDict(x, withSource, IdFromEntryId(x.entryId)), t);
  }

  lemma {:induction false} FilterResultsMatchesWindow(results: seq<Result>, start: Option<Date>, end: Option<Date>, withSource: bool)
    requires forall k :: 0 <= k < |results| ==> Valid(results[k].published)
    ensures FilterResults(results, start, end, withSource) == ShapeAll(InWindow(results, start, end), withSource)
    decreases |results|
  {
    if |results| > 0 {
      FilterResultsMatchesWindow(results[1..], start, end, withSource);
      var x := results[0];
      var tail := InWindow(results[1..], start, end);
      if DateInRange(x.published, start, end) {
        assert InWindow(results, start, end) == [x] + tail;
        ShapeAllCons(x, tail, withSource);
      }
    }
  }

  /** Every dictionary kept carries a slash-free `arxiv_id`, and the `arxiv` source tag when the crawler adds one. */
  lemma FilterResultsTagged(results: seq<Result>, start: Option<Date>, end: Option<Date>, withSource: bool)
    requires forall k :: 0 <= k < |results| ==> Valid(results[k].published)
    ensures var r := FilterResults(results, start, end, withSource);
      forall k :: 0 <= k < |r| ==> IdTagged(r[k], withSource)
  {
    FilterResultsMatchesWindow(results, start, end, withSource);
    var w := InWindow(results, start, end);
    forall k | 0 <= k < |w| ensures IdTagged(ShapeAll(w, withSource)[k], withSource) {
      ResultDictTagged(w[k], withSource, IdFromEntryId(w[k].entryId));
    }
  }

  /** A date bound as `strptime(bound, "%Y-%m-%d")` reads it: a date, or text it rejects with ValueError. */
  datatype Bound = Parsed(date: Date) | Malformed

  /** The date of a parsed bound; nothing for a missing or malformed one. */
  function BoundDate(b: Option<Bound>): Option<Date> {
    if b.Some? && b.value.Parsed? then Some(b.value.date) else None
  }

  /** The start bound is parsed for every result; a result it does not skip has the end bound parsed too. */
  predicate ReachesMalformed(d: Date, start: Option<Bound>, end: Option<Bound>) {
    || start == Some(Malformed)
    || (end == Some(Malformed) && (start.None? || !Before(d, start.value.date)))
  }

  /**
    `search_papers` after the library call, with the bounds still as text:
    None when `strptime` raises, which happens at the first result that
    reaches a malformed bound; otherwise the filtered dictionaries.
   */
  function FilterChecked(results: seq<Result>, start: Option<Bound>, end: Option<Bound>, withSource: bool): (r: Option<seq<Dict>>)
    requires forall k :: 0 <= k < |results| ==> Valid(results[k].published)
    ensures r.None? <==> exists k :: 0 <= k < |results| && ReachesMalformed(results[k].published, start, end)
    ensures start != Some(Malformed) && end != Some(Malformed) ==> r == Some(FilterResults(results, BoundDate(start), BoundDate(end), withSource))
    decreases |results|
  {
    if |results| == 0 then Some([])
    else
      var x := results[0];
      if ReachesMalformed(x.published, start, end) then None
      else
        var rest := FilterChecked(results[1..], start, end, withSource);
        assert forall k :: 1 <= k < |results| ==> results[k] == results[1..][k - 1];
        if rest.None? then None
        else if DateInRange(x.published, BoundDate(start), BoundDate(end)) then
          Some([ResultDict(x, withSource, IdFromEntryId(x.entryId))] + rest.value)
        else rest
  }

  /**
    A malformed end date is never parsed while every result falls before
    the start: nothing raises and nothing is kept.
   */
  lemma {:induction false} MalformedEndUnread(results: seq<Result>, s: Date, withSource: bool)
    requires forall k :: 0 <= k < |results| ==> Valid(results[k].published) && Before(results[k].published, s)
    ensures FilterChecked(results, Some(Parsed(s)), Some(Malformed), withSource) == Some([])
    decreases |results|
  {
    if |results| > 0 {
      MalformedEndUnread(results[1..], s, withSource);
    }
  }

  /** A result dated exactly on a bound is kept: the window is inclusive at both ends. */
  lemma WindowInclusive(d: Date)
    ensures DateInRange(d, Some(d), Some(d))
  {
  }

  /** The window compared on dates agrees with comparing the printed `YYYY-MM-DD` strings. */
  lemma WindowMatchesStrings(d: Date, start: Option<Date>, end: Option<Date>)
    requires Valid(d)
    requires start.Some? ==> Valid(start.value)
    requires end.Some? ==> Valid(end.value)
    ensures DateInRange(d, start, end) <==>
      InRange(Format(d),
              if start.Some? then Some(Format(start.value)) else None,
              if end.Some? then Some(Format(end.value)) else None)
  {
    FormattedFilterAgrees(d, start, end);
  }

  /** `get_paper_by_id`: the first result for the id, keyed by the id asked for; None when there is none. */
  function GetPaperById(arxivId: string, found: Option<Result>, withSource: bool): (r: Option<Dict>)
    requires found.Some? ==> Valid(found.value.published)
    ensures r.Some? <==> found.Some?
    ensures r.Some? ==> "arxiv_id" in r.value && r.value["arxiv_id"] == Str(arxivId)
  {
    match found
    case None => None
    case Some(x) => Some(ResultDict(x, withSource, arxivId))
  }

  // ---------------------------------------------------------------------------
  // SemanticScholarCrawler
  // ---------------------------------------------------------------------------

  /** One item of the decoded `data` list; each author is its `name`, None when the key is missing. */
  datatype Item = Item(
    title: Field<string>,
    authors: Field<seq<Option<string>>>,
    abstractField: Field<string>,
    url: Field<string>,
    paperId: Field<string>,
    publicationDate: Field<string>)

  /** The HTTP exchange: any request failure, or a body whose `data` key is read. */
  datatype Reply = Failed | Body(data: Field<seq<Item>>)

  /** What one call sends and returns. */
  datatype CrawlCall = CrawlCall(limit: int, year: Option<string>, papers: seq<Dict>)

  /** `item.get(key)`: a missing or null key gives None. */
  function FieldValue(f: Field<string>): (r: Value)
    ensures f.Val? <==> r.Str?
    ensures f.Val? ==> r == Str(f.v)
  {
    match f
    case Val(s) => Str(s)
    case _ => Nil
  }

  /**
    The `year` parameter, set only when a start date is given: the text
    before its first dash, a dash, and the end date's year, or the current
    year when no end date is given.
   */
  function CrawlYear(start: Option<string>, end: Option<string>, currentYear: int): (r: Option<string>)
    ensures r.Some? <==> Active(start)
    ensures Active(start) && Active(end) ==> r == Some(FirstPiece(start.value, "-") + "-" + FirstPiece(end.value, "-"))
    ensures Active(start) && !Active(end) ==> r == Some(FirstPiece(start.value, "-") + "-" + IntToStr(currentYear))
  {
    if Active(start) then
      Some(FirstPiece(start.value, "-") + "-" + (if Active(end) then FirstPiece(end.value, "-") else IntToStr(currentYear)))
    else None
  }

  /** `[a['name'] for a in item.get('authors', [])]` raises on a null list or an author without a name. */
  predicate ItemRaises(item: Item) {
    item.authors.Null? || (item.authors.Val? && None in item.authors.v)
  }

  function ItemDict(item: Item): (d: Dict)
    requires !ItemRaises(item)
    ensures d.Keys == {"source", "title", "authors", "summary", "pdf_url", "source_id", "published", "categories"}
    ensures d["source"] == Str("semantic_scholar") && d["categories"] == Strs([])
    ensures d["pdf_url"] == FieldValue(item.url)
    ensures d["source_id"] == FieldValue(item.paperId)
  {
    map[
      "source" := Str("semantic_scholar"),
      "title" := FieldValue(item.title),
      "authors" := Strs(if item.authors.Val? then Present(item.authors.v) else []),
      "summary" := FieldValue(item.abstractField),
      "pdf_url" := FieldValue(item.url),
      "source_id" := FieldValue(item.paperId),
      "published" := FieldValue(item.publicationDate),
      "categories" := Strs([])
    ]
  }

  /** Whether any item makes the list comprehension raise. */
  predicate AnyRaises(items: seq<Item>) {
    exists k :: 0 <= k < |items| && ItemRaises(items[k])
  }

  function ItemDicts(items: seq<Item>): (r: seq<Dict>)
    requires !AnyRaises(items)
    ensures |r| == |items|
    ensures forall k :: 0 <= k < |r| ==> r[k] == ItemDict(items[k])
  {
    seq(|items|, k requires 0 <= k < |items| && !AnyRaises(items) => ItemDict(items[k]))
  }

  /**
    `SemanticScholarCrawler.search_papers`: no date filtering, one
    dictionary per item; any failure of the request, a null `data`, or
    any item that raises makes the whole call return [].
   */
  function Crawl(maxResults: int, start: Option<string>, end: Option<string>, currentYear: int, reply: Reply): (r: CrawlCall)
    ensures r.limit == maxResults
    ensures r.year == CrawlYear(start, end, currentYear)
    ensures reply.Failed? ==> r.papers == []
    ensures reply.Body? && reply.data.Val? && AnyRaises(reply.data.v) ==> r.papers == []
    ensures reply.Body? && reply.data.Absent? ==> r.papers == []
    ensures reply.Body? && reply.data.Null? ==> r.papers == []
    ensures reply.Body? && reply.data.Val? && !AnyRaises(reply.data.v) ==> r.papers == ItemDicts(reply.data.v)
    ensures forall k :: 0 <= k < |r.papers| ==> "source" in r.papers[k] && r.papers[k]["source"] == Str("semantic_scholar")
  {
    var year := CrawlYear(start, end, currentYear);
    var papers :=
      match reply
      case Body(Val(items)) => if AnyRaises(items) then [] else ItemDicts(items)
      case _ => [];
    CrawlCall(maxResults, year, papers)
  }

  /** Unlike the Semantic Scholar adapter, an end date alone sets no year range. */
  lemma EndAloneSetsNoYear(end: string, currentYear: int)
    ensures CrawlYear(None, Some(end), currentYear).None?
  {
  }

  /** One author without a name discards every item of the response. */
  lemma NamelessAuthorDiscardsAll(good: seq<Item>, bad: Item, maxResults: int, currentYear: int)
    requires bad.authors.Val? && None in bad.authors.v
    ensures Crawl(maxResults, None, None, currentYear, Body(Val(good + [bad]))).papers == []
  {
    assert (good + [bad])[|good|] == bad;
  }
}
