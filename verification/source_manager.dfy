/**
  The multi-source search manager: resolving source names to adapters,
  concatenating the per-source results in the order the names are given,
  and removing later papers whose normalised title was already seen.
  Each adapter's `search` is an input: `fetch(a)` is what adapter `a`
  returns for the keywords, limit and dates of the call.
 */
module SourceManager {
  import opened Wrappers
  import opened Text
  import opened Papers
  import opened Dedup
  import SemanticScholar
  import ArxivSource

  /** The registered adapters, under the names `arxiv` and `semantic`. */
  datatype Adapter = Arxiv | Semantic

  const DefaultSource: string := "arxiv"

  // ---------------------------------------------------------------------------
  // Registry
  // ---------------------------------------------------------------------------

  /** `get_source`: the name is lower-cased and looked up among the two registered keys. */
  function GetSource(name: string): (r: Option<Adapter>)
    ensures r == Some(Arxiv) <==> Lower(name) == "arxiv"
    ensures r == Some(Semantic) <==> Lower(name) == "semantic"
    ensures r.None? <==> Lower(name) != "arxiv" && Lower(name) != "semantic"
  {
    var key := Lower(name);
    if key == "arxiv" then Some(Arxiv)
    else if key == "semantic" then Some(Semantic)
    else None
  }

  /** The display name each adapter reports. */
  function DisplayName(a: Adapter): string {
    match a
    case Arxiv => "ArXiv"
    case Semantic => "Semantic Scholar"
  }

  /** The description each adapter reports. */
  function Description(a: Adapter): string {
    match a
    case Arxiv => "开放获取的预印本论文库 (物理、数学、CS、生物等)"
    case Semantic => "AI驱动的学术搜索引擎 (计算机科学、神经科学等)"
  }

  /**
    `list_sources`: one entry per registered adapter, in insertion order,
    with its registry key, display name and description; the keys are
    distinct and already lower-case, so each finds its own adapter.
   */
  function ListSources(): (r: seq<(string, string, string)>)
    ensures |r| == 2
    ensures GetSource(r[0].0) == Some(Arxiv) && GetSource(r[1].0) == Some(Semantic)
    ensures r[0].0 != r[1].0
    ensures forall k :: 0 <= k < |r| ==> Lower(r[k].0) == r[k].0
    ensures forall k :: 0 <= k < |r| ==>
              && GetSource(r[k].0).Some?
              && r[k].1 == DisplayName(GetSource(r[k].0).value)
              && r[k].2 == Description(GetSource(r[k].0).value)
  {
    assert Lower("arxiv") == "arxiv";
    assert Lower("semantic") == "semantic";
    [("arxiv", DisplayName(Arxiv), Description(Arxiv)), ("semantic", DisplayName(Semantic), Description(Semantic))]
  }

  /** Look-up is case-insensitive, and the adapter's own display names and `semantic_scholar` are not registry keys. */
  lemma RegistryNames()
    ensures GetSource("ArXiv") == Some(Arxiv)
    ensures GetSource("SEMANTIC") == Some(Semantic)
    ensures GetSource("semantic_scholar").None?
    ensures GetSource("Semantic Scholar").None?
  {
    assert Lower("ArXiv") == "arxiv";
    assert Lower("SEMANTIC") == "semantic";
    assert Lower("semantic_scholar")[8] == '_';
    assert Lower("Semantic Scholar")[8] == ' ';
  }

  // ---------------------------------------------------------------------------
  // Capabilities
  // ---------------------------------------------------------------------------

  /** The base class's `supports_pdf_download`, used by an adapter that does not override it. */
  const BaseSupportsPdfDownload: bool := false

  /** Both registered adapters override the base default and report PDF support. */
  function SupportsPdfDownload(a: Adapter): (r: bool)
    ensures r != BaseSupportsPdfDownload
  {
    match a
    case Arxiv => true
    case Semantic => true
  }

  /** `get_pdf_url` dispatched to the adapter. */
  function GetPdfUrl(a: Adapter, p: Paper): (r: Option<string>)
    ensures a.Semantic? ==> r == p.pdfUrl
    ensures p.pdfUrl.Some? && p.pdfUrl.value != "" ==> r == p.pdfUrl
  {
    match a
    case Arxiv => ArxivSource.GetPdfUrl(p)
    case Semantic => SemanticScholar.GetPdfUrl(p)
  }

  /**
    `get_details` dispatched to the adapter. The arXiv adapter keeps the
    base class's default, which finds nothing; the Semantic Scholar one
    converts the fetched item (None when its request fails).
   */
  function GetDetails(a: Adapter, reply: Option<SemanticScholar.Item>): (r: Option<Paper>)
    ensures a.Arxiv? ==> r.None?
    ensures a.Semantic? && reply.None? ==> r.None?
    ensures a.Semantic? && reply.Some? ==> (r.Some? <==> !SemanticScholar.Raises(reply.value))
  {
    match a
    case Arxiv => None
    case Semantic => SemanticScholar.GetDetails(reply)
  }

  // ---------------------------------------------------------------------------
  // Title normalisation and dedup
  // ---------------------------------------------------------------------------

  /** `' '.join(title.lower().split())` */
  function NormalizeTitle(t: string): (r: string)
    ensures WellSpaced(r) && IsLowered(r)
  {
    var ws := Words(Lower(t));
    JoinWordsWellSpaced(ws);
    LowerIsLowered(t);
    WordsLowered(Lower(t));
    JoinLowered(ws, " ");
    Join(ws, " ")
  }

  /** Normalising a normalised title changes nothing. */
  lemma NormalizeIdempotent(t: string)
    ensures NormalizeTitle(NormalizeTitle(t)) == NormalizeTitle(t)
  {
    var n := NormalizeTitle(t);
    var ws := Words(Lower(t));
    LowerOfLowered(n);
    WordsOfJoin(ws);
  }

  /** Letter case does not matter: a lower-cased title has the same key. */
  lemma NormalizeIgnoresCase(t: string)
    ensures NormalizeTitle(Lower(t)) == NormalizeTitle(t)
  {
    LowerIsLowered(t);
    LowerOfLowered(Lower(t));
  }

  function TitleKey(p: Paper): string {
    NormalizeTitle(p.title)
  }

  /**
    `_deduplicate`: the first paper carrying each normalised title, in
    input order. The result is a subsequence, its titles are distinct,
    every input title survives, and exactly the first carriers are kept.
   */
  function DedupByTitle(ps: seq<Paper>): (r: seq<Paper>)
    ensures |r| <= |ps|
    ensures IsSubsequence(r, ps)
    ensures forall i, j :: 0 <= i < j < |r| ==> TitleKey(r[i]) != TitleKey(r[j])
    ensures KeysOf(r, TitleKey) == KeysOf(ps, TitleKey)
    ensures forall i :: 0 <= i < |ps| && IsFirst(ps, TitleKey, i) ==> ps[i] in r
    ensures forall x :: x in r ==> exists i :: 0 <= i < |ps| && ps[i] == x && IsFirst(ps, TitleKey, i)
  {
    FirstByKeySubsequence(ps, TitleKey, {});
    FirstByKeyDistinct(ps, TitleKey, {});
    FirstByKeyKeys(ps, TitleKey, {});
    FirstByKeyIsFirsts(ps, TitleKey);
    FirstsComplete(ps, TitleKey);
    FirstsSound(ps, TitleKey);
    FirstByKey(ps, TitleKey, {})
  }

  /** Deduplicating an already deduplicated list returns it unchanged. */
  lemma DedupIdempotent(ps: seq<Paper>)
    ensures DedupByTitle(DedupByTitle(ps)) == DedupByTitle(ps)
  {
    FirstByKeyIdempotent(ps, TitleKey);
  }

  /** The loop of `_deduplicate`, with its `seen_titles` set, computes `DedupByTitle`. */
  method Deduplicate(papers: seq<Paper>) returns (unique: seq<Paper>)
    ensures unique == DedupByTitle(papers)
  {
    var seen: set<string> := {};
    unique := [];
    var i := 0;
    while i < |papers|
      invariant 0 <= i <= |papers|
      invariant unique + FirstByKey(papers[i..], TitleKey, seen) == FirstByKey(papers, TitleKey, {})
    {
      var key := NormalizeTitle(papers[i].title);
      assert key == TitleKey(papers[i]);
      FirstByKeyStep(papers, i, TitleKey, seen);
      if key !in seen {
        AppendAssoc(unique, [papers[i]], FirstByKey(papers[i + 1..], TitleKey, seen + {key}));
        seen := seen + {key};
        unique := unique + [papers[i]];
      }
      i := i + 1;
    }
    assert papers[i..] == [];
    DedupByTitleWalk(papers);
  }

  /** The title filter is the walk from an empty set of seen titles. */
  lemma DedupByTitleWalk(ps: seq<Paper>)
    ensures DedupByTitle(ps) == FirstByKey(ps, TitleKey, {})
  {
  }

  // ---------------------------------------------------------------------------
  // Search
  // ---------------------------------------------------------------------------

  /** `source_names`, with None replaced by the default source alone. */
  function Names(sourceNames: Option<seq<string>>): (r: seq<string>)
    ensures sourceNames.None? ==> r == [DefaultSource]
    ensures sourceNames.Some? ==> r == sourceNames.value
  {
    sourceNames.GetOr([DefaultSource])
  }

  /** The per-source results concatenated in name order; unknown names contribute nothing. */
  function Gather(names: seq<string>, fetch: Adapter -> seq<Paper>): (r: seq<Paper>)
    ensures |names| == 0 ==> r == []
    decreases |names|
  {
    if |names| == 0 then []
    else
      var rest := Gather(names[1..], fetch);
      match GetSource(names[0])
      case Some(a) => fetch(a) + rest
      case None => rest
  }

  /** Gathering is compositional: the results for `a + b` are those for `a` followed by those for `b`. */
  lemma {:induction false} GatherAppend(a: seq<string>, b: seq<string>, fetch: Adapter -> seq<Paper>)
    ensures Gather(a + b, fetch) == Gather(a, fetch) + Gather(b, fetch)
    decreases |a|
  {
    if |a| == 0 {
      assert a + b == b;
    } else {
      assert (a + b)[0] == a[0];
      assert (a + b)[1..] == a[1..] + b;
      GatherAppend(a[1..], b, fetch);
    }
  }

  /** One name gathers that adapter's results, or nothing when the name is unknown. */
  lemma GatherOne(n: string, fetch: Adapter -> seq<Paper>)
    ensures Gather([n], fetch) == (match GetSource(n) case Some(a) => fetch(a) case None => [])
  {
    assert [n][1..] == [];
  }

  /**
    `SourceManager.search`: the title-deduplicated concatenation of the
    resolved sources' results, in the order the names are given.
   */
  function Search(sourceNames: Option<seq<string>>, fetch: Adapter -> seq<Paper>): (r: seq<Paper>)
    ensures IsSubsequence(r, Gather(Names(sourceNames), fetch))
    ensures forall i, j :: 0 <= i < j < |r| ==> TitleKey(r[i]) != TitleKey(r[j])
    ensures KeysOf(r, TitleKey) == KeysOf(Gather(Names(sourceNames), fetch), TitleKey)
  {
    DedupByTitle(Gather(Names(sourceNames), fetch))
  }

  /** Without names only the default arXiv adapter is queried. */
  lemma SearchDefault(fetch: Adapter -> seq<Paper>)
    ensures Search(None, fetch) == DedupByTitle(fetch(Arxiv))
  {
    assert Lower(DefaultSource) == "arxiv";
    GatherOne(DefaultSource, fetch);
  }

  /** An explicit empty list queries nothing. */
  lemma SearchEmpty(fetch: Adapter -> seq<Paper>)
    ensures Search(Some([]), fetch) == []
  {
  }

  /** An unknown name anywhere in the list is skipped without affecting the others. */
  lemma SearchSkipsUnknown(a: seq<string>, u: string, b: seq<string>, fetch: Adapter -> seq<Paper>)
    requires GetSource(u).None?
    ensures Search(Some(a + [u] + b), fetch) == Search(Some(a + b), fetch)
  {
    GatherAppend(a + [u], b, fetch);
    GatherAppend(a, [u], fetch);
    GatherOne(u, fetch);
    GatherAppend(a, b, fetch);
    assert Gather(a + [u], fetch) == Gather(a, fetch);
    assert Gather(a + [u] + b, fetch) == Gather(a + b, fetch);
  }

  /**
    Searching arXiv then Semantic Scholar keeps arXiv's survivors first,
    then the Semantic Scholar papers whose titles arXiv did not already
    return.
   */
  lemma SearchBoth(fetch: Adapter -> seq<Paper>)
    ensures Search(Some(["arxiv", "semantic"]), fetch)
            == DedupByTitle(fetch(Arxiv)) + FirstByKey(fetch(Semantic), TitleKey, KeysOf(fetch(Arxiv), TitleKey))
  {
    assert Lower("arxiv") == "arxiv";
    assert Lower("semantic") == "semantic";
    assert ["arxiv", "semantic"] == ["arxiv"] + ["semantic"];
    GatherAppend(["arxiv"], ["semantic"], fetch);
    GatherOne("arxiv", fetch);
    GatherOne("semantic", fetch);
    FirstByKeyAppend(fetch(Arxiv), fetch(Semantic), TitleKey, {});
    assert {} + KeysOf(fetch(Arxiv), TitleKey) == KeysOf(fetch(Arxiv), TitleKey);
  }
}
