/**
  The unified paper record every source adapter produces, and its
  dictionary projection (`Paper.to_dict`) that storage, export and the
  favourites list consume.
 */
module Papers {
  import opened Wrappers
  import opened Values

  datatype Paper = Paper(
    title: string,
    authors: seq<string>,
    abstractText: string,
    published: string,
    source: string,
    sourceId: string,
    url: string,
    updated: Option<string>,
    doi: Option<string>,
    pdfUrl: Option<string>,
    journal: Option<string>,
    categories: seq<string>,
    citations: Option<int>,
    aiSummary: Option<string>)

  /**
    The dataclass constructor followed by `__post_init__`: an omitted
    (None) category list becomes the empty list, every other argument is
    stored as given.
   */
  function Create(
    title: string, authors: seq<string>, abstractText: string, published: string,
    source: string, sourceId: string, url: string,
    updated: Option<string>, doi: Option<string>, pdfUrl: Option<string>,
    journal: Option<string>, categories: Option<seq<string>>,
    citations: Option<int>, aiSummary: Option<string>): (p: Paper)
    ensures categories.None? ==> p.categories == []
    ensures categories.Some? ==> p.categories == categories.value
    ensures p.title == title && p.authors == authors && p.abstractText == abstractText
    ensures p.published == published && p.source == source && p.sourceId == sourceId
    ensures p.url == url && p.updated == updated && p.doi == doi && p.pdfUrl == pdfUrl
    ensures p.journal == journal && p.citations == citations && p.aiSummary == aiSummary
  {
    Paper(title, authors, abstractText, published, source, sourceId, url,
          updated, doi, pdfUrl, journal, categories.GetOr([]), citations, aiSummary)
  }

  /** The keys `to_dict` produces: the fourteen fields plus three compatibility aliases. */
  const DictKeys: set<string> := {
    "title", "authors", "abstract", "summary", "published", "updated", "source",
    "source_id", "arxiv_id", "doi", "url", "link", "pdf_url", "journal",
    "categories", "citations", "ai_summary"
  }

  /** The value `to_dict` stores under key `k`. */
  function Field(p: Paper, k: string): Value {
    if k == "title" then Str(p.title)
    else if k == "authors" then Strs(p.authors)
    else if k == "abstract" || k == "summary" then Str(p.abstractText)
    else if k == "published" then Str(p.published)
    else if k == "updated" then FromOpt(p.updated)
    else if k == "source" then Str(p.source)
    else if k == "source_id" then Str(p.sourceId)
    else if k == "arxiv_id" then (if p.source == "arxiv" then Str(p.sourceId) else Nil)
    else if k == "doi" then FromOpt(p.doi)
    else if k == "url" || k == "link" then Str(p.url)
    else if k == "pdf_url" then FromOpt(p.pdfUrl)
    else if k == "journal" then FromOpt(p.journal)
    else if k == "categories" then Strs(p.categories)
    else if k == "citations" then (match p.citations case None => Nil case Some(n) => Num(n))
    else FromOpt(p.aiSummary)
  }

  /** `Paper.to_dict()` */
  function ToDict(p: Paper): (d: Dict)
    ensures d.Keys == DictKeys
    ensures d["summary"] == d["abstract"] && d["link"] == d["url"]
    ensures d["arxiv_id"] == (if p.source == "arxiv" then Str(p.sourceId) else Nil)
    ensures d["arxiv_id"] != Nil <==> p.source == "arxiv"
    ensures d["categories"].Strs?
  {
    map k | k in DictKeys :: Field(p, k)
  }

  /**
    Reads a Paper back from a dictionary by the field names alone (the
    aliases are ignored); None when a field is missing or has the wrong kind.
   */
  function FromDict(d: Dict): Option<Paper> {
    if && "title" in d && d["title"].Str?
       && "authors" in d && d["authors"].Strs?
       && "abstract" in d && d["abstract"].Str?
       && "published" in d && d["published"].Str?
       && "source" in d && d["source"].Str?
       && "source_id" in d && d["source_id"].Str?
       && "url" in d && d["url"].Str?
       && "updated" in d && ToOpt(d["updated"]).Some?
       && "doi" in d && ToOpt(d["doi"]).Some?
       && "pdf_url" in d && ToOpt(d["pdf_url"]).Some?
       && "journal" in d && ToOpt(d["journal"]).Some?
       && "categories" in d && d["categories"].Strs?
       && "citations" in d && (d["citations"].Nil? || d["citations"].Num?)
       && "ai_summary" in d && ToOpt(d["ai_summary"]).Some?
    then
      Some(Paper(
        d["title"].s, d["authors"].items, d["abstract"].s, d["published"].s,
        d["source"].s, d["source_id"].s, d["url"].s,
        ToOpt(d["updated"]).value, ToOpt(d["doi"]).value, ToOpt(d["pdf_url"]).value,
        ToOpt(d["journal"]).value, d["categories"].items,
        if d["citations"].Num? then Some(d["citations"].n) else None,
        ToOpt(d["ai_summary"]).value))
    else None
  }

  /** The plain-text fields of `to_dict`, each under its own name. */
  lemma ToDictTextFields(p: Paper)
    ensures var d := ToDict(p);
      && d["title"] == Str(p.title) && d["authors"] == Strs(p.authors)
      && d["abstract"] == Str(p.abstractText) && d["published"] == Str(p.published)
  {
  }

  /** The identity fields of `to_dict`. */
  lemma ToDictIdentityFields(p: Paper)
    ensures var d := ToDict(p);
      d["source"] == Str(p.source) && d["source_id"] == Str(p.sourceId) && d["url"] == Str(p.url)
  {
  }

  /** The optional fields of `to_dict`: None where the paper has none. */
  lemma ToDictOptionalFields(p: Paper)
    ensures var d := ToDict(p);
      && d["updated"] == FromOpt(p.updated) && d["doi"] == FromOpt(p.doi)
      && d["pdf_url"] == FromOpt(p.pdfUrl) && d["journal"] == FromOpt(p.journal)
  {
  }

  /** The list, count and summary fields of `to_dict`. */
  lemma ToDictExtraFields(p: Paper)
    ensures var d := ToDict(p);
      && d["categories"] == Strs(p.categories)
      && d["citations"] == (match p.citations case None => Nil case Some(n) => Num(n))
      && d["ai_summary"] == FromOpt(p.aiSummary)
  {
  }

  /** `to_dict` loses nothing: every field is stored unchanged under its own name. */
  lemma ToDictRoundTrip(p: Paper)
    ensures FromDict(ToDict(p)) == Some(p)
  {
    ToDictTextFields(p);
    ToDictIdentityFields(p);
    ToDictOptionalFields(p);
    ToDictExtraFields(p);
    ToOptFromOpt(p.updated);
    ToOptFromOpt(p.doi);
    ToOptFromOpt(p.pdfUrl);
    ToOptFromOpt(p.journal);
    ToOptFromOpt(p.aiSummary);
  }

  /** The values of `to_dict` that storage reads, and the keys it does not have. */
  lemma ToDictStoredFields(p: Paper)
    ensures var d := ToDict(p);
      && d["title"] == Str(p.title) && d["authors"] == Strs(p.authors)
      && d["summary"] == Str(p.abstractText) && d["published"] == Str(p.published)
      && d["source"] == Str(p.source) && d["source_id"] == Str(p.sourceId)
      && d["pdf_url"] == FromOpt(p.pdfUrl) && d["ai_summary"] == FromOpt(p.aiSummary)
      && "id" !in d
  {
    ToDictTextFields(p);
    ToDictIdentityFields(p);
    ToDictOptionalFields(p);
    ToDictExtraFields(p);
  }

  /** Two papers with the same dictionary are the same paper. */
  lemma ToDictInjective(p: Paper, q: Paper)
    requires ToDict(p) == ToDict(q)
    ensures p == q
  {
    ToDictRoundTrip(p);
    ToDictRoundTrip(q);
  }
}
