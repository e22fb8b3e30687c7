/**
  The citation formatters of `CitationExporter`: a BibTeX file of many
  papers and the APA, MLA and IEEE strings of one paper. A paper is a
  dictionary; a formatter returns None exactly where Python would raise
  (a string operation on None, an index into an empty list).
 */
module Citation {
  import opened Wrappers
  import opened Text
  import opened Values

  // ---------------------------------------------------------------------------
  // Fields shared by the formatters
  // ---------------------------------------------------------------------------

  /** `paper.get('published', default)[:4]`; None when the value cannot be sliced as a string. */
  function Year4(p: Dict, default: string): (r: Option<string>)
    ensures r.Some? ==> |r.value| <= 4
    ensures "published" !in p ==> r == Some(Take(default, 4))
    ensures r.Some? <==> Get(p, "published", Str(default)).Str?
  {
    match Get(p, "published", Str(default))
    case Str(s) => Some(Take(s, 4))
    case _ => None
  }

  /** `paper.get('arxiv_id') or paper.get('source_id', '')` */
  function ArxivIdOf(p: Dict): (r: Value)
    ensures Truthy(Get(p, "arxiv_id", Nil)) ==> r == p["arxiv_id"]
    ensures !Truthy(Get(p, "arxiv_id", Nil)) ==> r == Get(p, "source_id", Str(""))
  {
    Or(Get(p, "arxiv_id", Nil), Get(p, "source_id", Str("")))
  }

  /** `''.join(filter(str.isalnum, s))` */
  function AlnumOnly(s: string): (r: string)
    ensures |r| <= |s|
    ensures forall i :: 0 <= i < |r| ==> IsAlnum(r[i])
    ensures (forall i :: 0 <= i < |s| ==> IsAlnum(s[i])) ==> r == s
  {
    if |s| == 0 then ""
    else
      assert forall i :: 1 <= i < |s| ==> s[1..][i - 1] == s[i];
      if IsAlnum(s[0]) then [s[0]] + AlnumOnly(s[1..]) else AlnumOnly(s[1..])
  }

  // ---------------------------------------------------------------------------
  // BibTeX
  // ---------------------------------------------------------------------------

  /** The fields of one BibTeX entry; an optional line is present when its value is. */
  datatype BibEntry = BibEntry(
    key: string, title: string, author: string, year: string, journal: string,
    abstractText: Option<string>, eprint: Option<string>, doi: Option<string>, url: Option<string>)

  /**
    The first part of the cite key: the last word of the first author,
    or `Unknown` when the authors are missing or empty. None when the
    first author has no word (`split()[-1]` on an empty list) or the
    authors cannot be indexed.
   */
  function KeyAuthor(p: Dict): (r: Option<string>)
    ensures !Truthy(Get(p, "authors", Nil)) ==> r == Some("Unknown")
    ensures r.Some? ==> |r.value| > 0 && NoSpace(r.value)
  {
    if !Truthy(Get(p, "authors", Nil)) then
      assert forall i :: 0 <= i < 7 ==> "Unknown"[i] in "Unknow";
      Some("Unknown")
    else
      match AsList(p["authors"])
      case None => None
      case Some(xs) =>
        var ws := Words(xs[0]);
        if |ws| == 0 then None else Some(ws[|ws| - 1])
  }

  /** The third part of the cite key: the alphanumerics of the first word of the title (default `paper`). */
  function KeyTitle(p: Dict): (r: Option<string>)
    ensures r.Some? ==> forall i :: 0 <= i < |r.value| ==> IsAlnum(r.value[i])
    ensures r.Some? <==> Get(p, "title", Str("paper")).Str? && |Words(Get(p, "title", Str("paper")).s)| > 0
  {
    var t := Get(p, "title", Str("paper"));
    if !t.Str? || |Words(t.s)| == 0 then None else Some(AlnumOnly(Words(t.s)[0]))
  }

  /** `f"{first_author}{year}{title_word}"` */
  function CiteKey(p: Dict): (r: Option<string>)
    ensures r.Some? <==> KeyAuthor(p).Some? && Year4(p, "2024").Some? && KeyTitle(p).Some?
    ensures r.Some? ==> StartsWith(r.value, KeyAuthor(p).value)
  {
    var a, y, t := KeyAuthor(p), Year4(p, "2024"), KeyTitle(p);
    if a.None? || y.None? || t.None? then None
    else
      ConcatEnds(a.value, y.value, t.value);
      Some(a.value + y.value + t.value)
  }

  /** Neither the author word nor the title word contains whitespace, so a key has none when its year part has none. */
  lemma CiteKeyNoSpace(p: Dict)
    requires Year4(p, "2024").Some? && NoSpace(Year4(p, "2024").value)
    requires CiteKey(p).Some?
    ensures NoSpace(CiteKey(p).value)
  {
    var a, y, t := KeyAuthor(p).value, Year4(p, "2024").value, KeyTitle(p).value;
    assert CiteKey(p).value == a + y + t;
    AlnumNoSpace(t);
    NoSpaceConcat(a, y);
    NoSpaceConcat(a + y, t);
  }

  /**
    The eprint id: `arxiv_id or source_id`; for an arXiv paper without
    either, the text after the last `/abs/` of a URL that contains
    `arxiv.org/abs/`. None when the URL is of a kind `in` or `split`
    rejects.
   */
  function BibArxivId(p: Dict): (r: Option<Value>)
    ensures Truthy(ArxivIdOf(p)) ==> r == Some(ArxivIdOf(p))
    ensures Get(p, "source", Nil) != Str("arxiv") ==> r == Some(ArxivIdOf(p))
    ensures r.Some? && r.value != ArxivIdOf(p) ==>
      Get(p, "url", Str("")).Str? && Contains(Get(p, "url", Str("")).s, "arxiv.org/abs/")
      && r.value == Str(LastPiece(Get(p, "url", Str("")).s, "/abs/"))
  {
    var id := ArxivIdOf(p);
    if Get(p, "source", Nil) == Str("arxiv") && !Truthy(id) then
      match Get(p, "url", Str(""))
      case Str(u) => if Contains(u, "arxiv.org/abs/") then Some(Str(LastPiece(u, "/abs/"))) else Some(id)
      case Strs(xs) => if "arxiv.org/abs/" in xs then None else Some(id)
      case _ => None
    else Some(id)
  }

  /**
    The journal line as `to_bibtex` writes it: `paper.get('journal',
    default)`, so a journal stored as None is written `None`.
   */
  function JournalAsWritten(p: Dict, id: Value): (r: string)
    ensures "journal" in p ==> r == Render(p["journal"])
    ensures "journal" !in p ==> r == (if Truthy(id) then "arXiv" else "Unknown")
  {
    Render(Get(p, "journal", Str(if Truthy(id) then "arXiv" else "Unknown")))
  }

  /** The journal line with the default applied to any falsy journal, as the APA, MLA and IEEE formatters do. */
  function Journal(p: Dict, id: Value): (r: string)
    ensures Truthy(Get(p, "journal", Nil)) ==> r == Render(p["journal"])
    ensures !Truthy(Get(p, "journal", Nil)) ==> r == (if Truthy(id) then "arXiv" else "Unknown")
  {
    Render(Or(Get(p, "journal", Nil), Str(if Truthy(id) then "arXiv" else "Unknown")))
  }

  /** A paper dictionary from `Paper.to_dict` always carries `journal`; as written, a missing journal comes out as `None`. */
  lemma JournalNoneWritten(p: Dict, id: Value)
    requires "journal" in p && p["journal"] == Nil
    ensures JournalAsWritten(p, id) == "None"
    ensures Journal(p, id) != "None"
  {
  }

  /** The two agree whenever the journal is present and truthy, or absent. */
  lemma JournalAgrees(p: Dict, id: Value)
    requires "journal" !in p || Truthy(p["journal"])
    ensures JournalAsWritten(p, id) == Journal(p, id)
  {
  }

  /** The value of an optional line: present when truthy. */
  function OptLine(v: Value): (r: Option<string>)
    ensures r.Some? <==> Truthy(v)
    ensures r.Some? ==> r.value == Render(v)
  {
    if Truthy(v) then Some(Render(v)) else None
  }

  /** The fields of the entry for one paper; None where Python raises. */
  function BibFields(p: Dict): (r: Option<BibEntry>)
    ensures r.Some? <==> CiteKey(p).Some? && AsList(Get(p, "authors", Strs(["Unknown"]))).Some?
                         && Year4(p, "").Some? && BibArxivId(p).Some?
    ensures r.Some? ==> r.value.key == CiteKey(p).value
    ensures r.Some? ==> r.value.author == Join(AsList(Get(p, "authors", Strs(["Unknown"]))).value, " and ")
    ensures r.Some? ==> (r.value.abstractText.Some? <==> Truthy(Get(p, "abstract", Get(p, "summary", Str("")))))
    ensures r.Some? ==> (r.value.eprint.Some? <==> Truthy(BibArxivId(p).value))
    ensures r.Some? ==> (r.value.doi.Some? <==> Truthy(Get(p, "doi", Str(""))))
    ensures r.Some? ==> (r.value.url.Some? <==> Truthy(Get(p, "url", Get(p, "link", Str("")))))
    ensures r.Some? ==> r.value.title == Render(Get(p, "title", Str("Untitled"))) && r.value.year == Year4(p, "").value
    ensures r.Some? && Truthy(Get(p, "journal", Nil)) ==> r.value.journal == Render(p["journal"])
    ensures r.Some? && !Truthy(Get(p, "journal", Nil)) ==> r.value.journal == (if r.value.eprint.Some? then "arXiv" else "Unknown")
  {
    var key, authors, year, id := CiteKey(p), AsList(Get(p, "authors", Strs(["Unknown"]))), Year4(p, ""), BibArxivId(p);
    if key.None? || authors.None? || year.None? || id.None? then None
    else
      Some(BibEntry(
        key.value,
        Render(Get(p, "title", Str("Untitled"))),
        Join(authors.value, " and "),
        year.value,
        Journal(p, id.value),
        OptLine(Get(p, "abstract", Get(p, "summary", Str("")))),
        OptLine(id.value),
        OptLine(Get(p, "doi", Str(""))),
        OptLine(Get(p, "url", Get(p, "link", Str(""))))))
  }

  /** The number of optional lines an entry has; the eprint brings two. */
  function OptionalLines(e: BibEntry): nat {
    (if e.abstractText.Some? then 1 else 0) + (if e.eprint.Some? then 2 else 0)
    + (if e.doi.Some? then 1 else 0) + (if e.url.Some? then 1 else 0)
  }

  /**
    The lines of one entry: five fixed lines, the optional lines whose
    value is present (the eprint with its archive prefix), and the
    closing brace.
   */
  function BibLines(e: BibEntry): (r: seq<string>)
    ensures |r| == 6 + OptionalLines(e)
    ensures r[0] == "@article{" + e.key + "," && r[|r| - 1] == "}"
  {
    FixedLines(e) + OptionalBlock(e) + ["}"]
  }

  /** The five lines every entry has. */
  function FixedLines(e: BibEntry): (r: seq<string>)
    ensures |r| == 5 && r[0] == "@article{" + e.key + ","
  {
    ["@article{" + e.key + ",",
     "  title = {{" + e.title + "}},",
     "  author = {" + e.author + "},",
     "  year = {" + e.year + "},",
     "  journal = {" + e.journal + "},"]
  }

  /** The optional lines, in order, each only when its value is present. */
  function OptionalBlock(e: BibEntry): (r: seq<string>)
    ensures |r| == OptionalLines(e)
  {
    (if e.abstractText.Some? then ["  abstract = {{" + e.abstractText.value + "}},"] else [])
    + (if e.eprint.Some? then ["  eprint = {" + e.eprint.value + "},", "  archivePrefix = {arXiv},"] else [])
    + (if e.doi.Some? then ["  doi = {" + e.doi.value + "},"] else [])
    + (if e.url.Some? then ["  url = {" + e.url.value + "},"] else [])
  }

  /** One `@article` entry; it always ends with a closing brace on its own line. */
  function RenderBib(e: BibEntry): (r: string)
    ensures StartsWith(r, "@article{" + e.key + ",")
    ensures EndsWith(r, "\n}")
  {
    JoinEnds(BibLines(e), "\n");
    Join(BibLines(e), "\n")
  }

  /** No field value holds a line break. */
  predicate SingleLine(e: BibEntry) {
    && '\n' !in e.key && '\n' !in e.title && '\n' !in e.author && '\n' !in e.year && '\n' !in e.journal
    && (e.abstractText.Some? ==> '\n' !in e.abstractText.value)
    && (e.eprint.Some? ==> '\n' !in e.eprint.value)
    && (e.doi.Some? ==> '\n' !in e.doi.value)
    && (e.url.Some? ==> '\n' !in e.url.value)
  }

  predicate LinesFree(ls: seq<string>) {
    forall k :: 0 <= k < |ls| ==> '\n' !in ls[k]
  }

  lemma LinesFreeAppend(a: seq<string>, b: seq<string>)
    requires LinesFree(a) && LinesFree(b)
    ensures LinesFree(a + b)
  {
    forall k | 0 <= k < |a + b| ensures '\n' !in (a + b)[k] {
      if k >= |a| {
        assert (a + b)[k] == b[k - |a|];
      }
    }
  }

  /** A line made of two break-free literals around a break-free value. */
  lemma LineFree(pre: string, v: string, post: string)
    requires '\n' !in pre && '\n' !in v && '\n' !in post
    ensures '\n' !in pre + v + post
  {
  }

  lemma FixedLinesFree(e: BibEntry)
    requires SingleLine(e)
    ensures LinesFree(FixedLines(e))
  {
    LineFree("@article{", e.key, ",");
    LineFree("  title = {{", e.title, "}},");
    LineFree("  author = {", e.author, "},");
    LineFree("  year = {", e.year, "},");
    LineFree("  journal = {", e.journal, "},");
  }

  lemma OptionalBlockFree(e: BibEntry)
    requires SingleLine(e)
    ensures LinesFree(OptionalBlock(e))
  {
    var a := if e.abstractText.Some? then ["  abstract = {{" + e.abstractText.value + "}},"] else [];
    var b := if e.eprint.Some? then ["  eprint = {" + e.eprint.value + "},", "  archivePrefix = {arXiv},"] else [];
    var c := if e.doi.Some? then ["  doi = {" + e.doi.value + "},"] else [];
    var d := if e.url.Some? then ["  url = {" + e.url.value + "},"] else [];
    if e.abstractText.Some? { LineFree("  abstract = {{", e.abstractText.value, "}},"); }
    if e.eprint.Some? { LineFree("  eprint = {", e.eprint.value, "},"); }
    if e.doi.Some? { LineFree("  doi = {", e.doi.value, "},"); }
    if e.url.Some? { LineFree("  url = {", e.url.value, "},"); }
    LinesFreeAppend(a, b);
    LinesFreeAppend(a + b, c);
    LinesFreeAppend(a + b + c, d);
  }

  lemma BibLinesFree(e: BibEntry)
    requires SingleLine(e)
    ensures LinesFree(BibLines(e))
  {
    FixedLinesFree(e);
    OptionalBlockFree(e);
    LinesFreeAppend(FixedLines(e), OptionalBlock(e));
    LinesFreeAppend(FixedLines(e) + OptionalBlock(e), ["}"]);
  }

  /**
    Every optional line is written only when its value is present: an
    entry whose values hold no line break splits back into exactly its
    lines, five fixed ones, one per present option (two for the eprint)
    and the closing brace.
   */
  lemma RenderBibLines(e: BibEntry)
    requires SingleLine(e)
    ensures SplitOn(RenderBib(e), '\n') == BibLines(e)
    ensures |SplitOn(RenderBib(e), '\n')| == 6 + OptionalLines(e)
  {
    BibLinesFree(e);
    assert "\n" == ['\n'];
    JoinSplitOn(BibLines(e), '\n');
  }

  /** The entry of one paper. */
  function BibtexEntry(p: Dict): Option<string> {
    match BibFields(p)
    case Some(e) => Some(RenderBib(e))
    case None => None
  }

  /** An entry exists exactly when the fields can be read; it opens with the cite key and closes with a brace. */
  lemma BibtexEntryShape(p: Dict)
    ensures BibtexEntry(p).Some? <==> BibFields(p).Some?
    ensures BibtexEntry(p).Some? ==> StartsWith(BibtexEntry(p).value, "@article{" + CiteKey(p).value + ",")
    ensures BibtexEntry(p).Some? ==> EndsWith(BibtexEntry(p).value, "\n}")
  {
  }

  /** The entry of each paper, in order. */
  function EntryList(papers: seq<Dict>): (r: seq<Option<string>>)
    ensures |r| == |papers|
    ensures forall i :: 0 <= i < |papers| ==> r[i] == BibtexEntry(papers[i])
  {
    if |papers| == 0 then []
    else
      assert forall i :: 1 <= i < |papers| ==> papers[1..][i - 1] == papers[i];
      [BibtexEntry(papers[0])] + EntryList(papers[1..])
  }

  /** `to_bibtex`: the entries joined by a blank line; None as soon as one entry raises. */
  function ToBibtex(papers: seq<Dict>): (r: Option<string>)
    ensures papers == [] ==> r == Some("")
    ensures r.Some? <==> forall i :: 0 <= i < |papers| ==> BibtexEntry(papers[i]).Some?
    ensures |papers| == 1 && r.Some? ==> r == BibtexEntry(papers[0])
  {
    var es := Collect(EntryList(papers));
    if es.None? then None else Some(Join(es.value, "\n\n"))
  }

  /** Adding a paper adds its entry after a blank line. */
  lemma ToBibtexCons(p: Dict, papers: seq<Dict>)
    requires |papers| > 0
    requires ToBibtex([p] + papers).Some?
    ensures ToBibtex([p] + papers) == Some(BibtexEntry(p).value + "\n\n" + ToBibtex(papers).value)
  {
    var all := [p] + papers;
    assert all[1..] == papers;
    assert all[0] == p;
    var es, rest := Collect(EntryList(all)).value, Collect(EntryList(papers)).value;
    assert es == [BibtexEntry(p).value] + rest;
    JoinCons(BibtexEntry(p).value, rest, "\n\n");
  }

  // ---------------------------------------------------------------------------
  // APA
  // ---------------------------------------------------------------------------

  /** The APA author part: one name, `A & B`, `A et al.`, or `Unknown` for none. */
  function ApaAuthors(xs: seq<string>): (r: string)
    ensures |xs| == 0 ==> r == "Unknown"
    ensures |xs| == 1 ==> r == xs[0]
    ensures |xs| == 2 ==> r == xs[0] + " & " + xs[1]
    ensures |xs| > 2 ==> r == xs[0] + " et al."
  {
    if |xs| == 1 then xs[0]
    else if |xs| == 2 then xs[0] + " & " + xs[1]
    else if |xs| > 2 then xs[0] + " et al."
    else "Unknown"
  }

  /** Beyond the third, authors do not matter. */
  lemma ApaAuthorsFirstThree(xs: seq<string>, more: seq<string>)
    requires |xs| >= 3
    ensures ApaAuthors(xs + more) == ApaAuthors(xs[..3])
  {
    assert (xs + more)[0] == xs[..3][0];
  }

  /** `paper.get('journal') or 'arXiv preprint'` */
  function ApaJournal(p: Dict): (r: Value)
    ensures !Truthy(Get(p, "journal", Nil)) ==> r == Str("arXiv preprint")
    ensures Truthy(r)
  {
    Or(Get(p, "journal", Nil), Str("arXiv preprint"))
  }

  /**
    The id after an APA journal: shown when there is an id and the
    lower-cased journal mentions arXiv; None when a journal that is not
    a string would have to be lower-cased.
   */
  function ApaIdPart(journal: Value, id: Value): Option<string>
  {
    if !Truthy(id) then Some("")
    else if !journal.Str? then None
    else Some(if Contains(Lower(journal.s), "arxiv") then ", " + Render(id) else "")
  }

  /** `to_apa`; None when the authors cannot be measured, `published` cannot be sliced, or a non-string journal would be lower-cased. */
  function ToApa(p: Dict): (r: Option<string>)
    ensures r.Some? <==> AsList(Get(p, "authors", Strs(["Unknown"]))).Some? && Year4(p, "2024").Some?
                         && ApaIdPart(ApaJournal(p), ArxivIdOf(p)).Some?
    ensures r.Some? ==> StartsWith(r.value, ApaAuthors(AsList(Get(p, "authors", Strs(["Unknown"]))).value) + ". (" + Year4(p, "2024").value + "). ")
    ensures r.Some? ==> EndsWith(r.value, "*" + Render(ApaJournal(p)) + "*" + ApaIdPart(ApaJournal(p), ArxivIdOf(p)).value + ".")
  {
    var xs, year := AsList(Get(p, "authors", Strs(["Unknown"]))), Year4(p, "2024");
    var journal := ApaJournal(p);
    var idPart := ApaIdPart(journal, ArxivIdOf(p));
    if xs.None? || year.None? || idPart.None? then None
    else
      var head := ApaAuthors(xs.value) + ". (" + year.value + "). ";
      var mid := Render(Get(p, "title", Str("Untitled"))) + ". ";
      var tail := "*" + Render(journal) + "*" + idPart.value + ".";
      ConcatEnds(head, mid, tail);
      Some(head + mid + tail)
  }

  /** The default journal `arXiv preprint` mentions arXiv. */
  lemma DefaultJournalMentionsArxiv()
    ensures Contains(Lower("arXiv preprint"), "arxiv")
  {
    assert Lower("arXiv preprint")[..5] == "arxiv";
  }

  /** With no journal, APA names `arXiv preprint`, which mentions arXiv, so a paper with an id carries it after the journal. */
  lemma ApaDefaultJournalShowsId(p: Dict)
    requires !Truthy(Get(p, "journal", Nil)) && Truthy(ArxivIdOf(p))
    ensures ApaIdPart(ApaJournal(p), ArxivIdOf(p)) == Some(", " + Render(ArxivIdOf(p)))
  {
    DefaultJournalMentionsArxiv();
  }

  /** A journal that does not mention arXiv hides the id. */
  lemma ApaOtherJournalHidesId(p: Dict, journal: string)
    requires "journal" in p && p["journal"] == Str(journal) && journal != ""
    requires !Contains(Lower(journal), "arxiv")
    ensures ApaIdPart(ApaJournal(p), ArxivIdOf(p)) == Some("")
  {
  }

  // ---------------------------------------------------------------------------
  // MLA
  // ---------------------------------------------------------------------------

  /** The MLA form of the first author: `Last, Rest` for several words, the name as is for one word. */
  function MlaName(first: string): (r: string)
    ensures first == "" ==> r == "Unknown"
    ensures |Words(first)| <= 1 && first != "" ==> r == first
  {
    if first == "" then "Unknown"
    else
      var ws := Words(first);
      if |ws| > 1 then ws[|ws| - 1] + ", " + Join(ws[..|ws| - 1], " ") else first
  }

  /** Two words are swapped around a comma. */
  lemma MlaNameTwo(given: string, family: string)
    requires |given| > 0 && NoSpace(given) && |family| > 0 && NoSpace(family)
    ensures MlaName(given + " " + family) == family + ", " + given
  {
    var ws := [given, family];
    assert Join(ws, " ") == given + " " + family by {
      assert ws[1..] == [family];
    }
    WordsOfJoin(ws);
    assert ws[..1] == [given];
  }

  /** Any name of two or more words: the family name, a comma, then the given names as written. */
  lemma MlaNameWords(ws: seq<string>)
    requires |ws| >= 2 && AreWords(ws)
    ensures MlaName(Join(ws, " ")) == ws[|ws| - 1] + ", " + Join(ws[..|ws| - 1], " ")
  {
    WordsOfJoin(ws);
  }

  /** `author_str`: the first author in MLA form, `, et al.` when there are others, `Unknown` for none. */
  function MlaAuthors(xs: seq<string>): (r: string)
    ensures |xs| == 0 ==> r == "Unknown"
    ensures |xs| == 1 ==> r == MlaName(xs[0])
    ensures |xs| > 1 ==> r == MlaName(xs[0]) + ", et al."
  {
    if |xs| == 0 then "Unknown" else MlaName(xs[0]) + (if |xs| > 1 then ", et al." else "")
  }

  /**
    The author list `to_mla` formats: a falsy `authors` value (None, an
    empty list or string, zero, False) formats as no authors; otherwise the
    value iterated as a list, None where Python cannot index it.
   */
  function MlaAuthorList(a: Value): (r: Option<seq<string>>)
    ensures !Truthy(a) ==> r == Some([])
    ensures Truthy(a) ==> r == AsList(a)
  {
    if !Truthy(a) then Some([]) else AsList(a)
  }

  /** `to_mla`; None when a truthy author value cannot be indexed or `published` cannot be sliced. */
  function ToMla(p: Dict): (r: Option<string>)
    ensures var a := Get(p, "authors", Strs(["Unknown"]));
      r.Some? <==> (!Truthy(a) || AsList(a).Some?) && Year4(p, "2024").Some?
    ensures r.Some? ==> StartsWith(r.value, MlaAuthors(MlaAuthorList(Get(p, "authors", Strs(["Unknown"]))).value) + ". \"")
    ensures r.Some? ==> EndsWith(r.value, ", " + Year4(p, "2024").value + ".")
  {
    var xs, year := MlaAuthorList(Get(p, "authors", Strs(["Unknown"]))), Year4(p, "2024");
    if xs.None? || year.None? then None
    else
      var id := ArxivIdOf(p);
      var head := MlaAuthors(xs.value) + ". \"";
      var mid := Render(Get(p, "title", Str("Untitled"))) + ".\" *" + Render(Or(Get(p, "journal", Nil), Str("ArXiv"))) + "*"
        + (if Truthy(id) then ", " + Render(id) else "");
      var tail := ", " + year.value + ".";
      ConcatEnds(head, mid, tail);
      Some(head + mid + tail)
  }

  /** A null or empty author list is cited as `Unknown` rather than rejected. */
  lemma ToMlaFalsyAuthors(p: Dict)
    requires "authors" in p && !Truthy(p["authors"])
    requires Year4(p, "2024").Some?
    ensures ToMla(p).Some? && StartsWith(ToMla(p).value, "Unknown. \"")
  {
  }

  // ---------------------------------------------------------------------------
  // IEEE
  // ---------------------------------------------------------------------------

  /** The first letter of each word. */
  function Initials(ws: seq<string>): (r: seq<string>)
    requires forall k :: 0 <= k < |ws| ==> |ws[k]| > 0
    ensures |r| == |ws|
    ensures forall k :: 0 <= k < |ws| ==> r[k] == [ws[k][0]]
  {
    if |ws| == 0 then [] else [[ws[0][0]]] + Initials(ws[1..])
  }

  /** One IEEE name: the initials of all but the last word, each followed by a dot, then the last word. */
  function IeeeName(author: string): (r: string)
    ensures |Words(author)| <= 1 ==> r == author
  {
    var ws := Words(author);
    if |ws| > 1 then Join(Initials(ws[..|ws| - 1]), ". ") + ". " + ws[|ws| - 1] else author
  }

  /** `Ada Lovelace` becomes `A. Lovelace`. */
  lemma IeeeNameTwo(given: string, family: string)
    requires |given| > 0 && NoSpace(given) && |family| > 0 && NoSpace(family)
    ensures IeeeName(given + " " + family) == [given[0]] + ". " + family
  {
    var ws := [given, family];
    assert Join(ws, " ") == given + " " + family by {
      assert ws[1..] == [family];
    }
    WordsOfJoin(ws);
    assert ws[..1] == [given];
    assert Initials([given]) == [[given[0]]];
  }

  /** Any name of two or more words: the initial of each given name, each followed by `. `, then the family name. */
  lemma IeeeNameWords(ws: seq<string>)
    requires |ws| >= 2 && AreWords(ws)
    ensures IeeeName(Join(ws, " ")) == Join(Initials(ws[..|ws| - 1]), ". ") + ". " + ws[|ws| - 1]
  {
    var s := Join(ws, " ");
    WordsOfJoin(ws);
    IeeeNameOfWords(s, ws);
  }

  lemma IeeeNameOfWords(author: string, ws: seq<string>)
    requires Words(author) == ws && |ws| >= 2 && AreWords(ws)
    ensures IeeeName(author) == Join(Initials(ws[..|ws| - 1]), ". ") + ". " + ws[|ws| - 1]
  {
  }

  function IeeeNames(xs: seq<string>): (r: seq<string>)
    ensures |r| == |xs|
    ensures forall k :: 0 <= k < |xs| ==> r[k] == IeeeName(xs[k])
  {
    if |xs| == 0 then [] else [IeeeName(xs[0])] + IeeeNames(xs[1..])
  }

  /** At most three names joined by `, `, followed by `, et al.` exactly when there are more than three authors. */
  function IeeeAuthors(xs: seq<string>): (r: string)
    ensures |xs| <= 3 ==> r == Join(IeeeNames(xs), ", ")
    ensures |xs| > 3 ==> r == Join(IeeeNames(xs[..3]), ", ") + ", et al."
  {
    Join(IeeeNames(Take(xs, 3)), ", ") + (if |xs| > 3 then ", et al." else "")
  }

  /** Only the first four authors matter: three are shown and the fourth decides `et al.` */
  lemma IeeeAuthorsFirstFour(xs: seq<string>, more: seq<string>)
    requires |xs| >= 4
    ensures IeeeAuthors(xs + more) == IeeeAuthors(xs[..4])
  {
    assert (xs + more)[..3] == xs[..4][..3] == xs[..3];
  }

  /** `to_ieee`; None when the authors cannot be measured or `published` cannot be sliced. */
  function ToIeee(p: Dict): (r: Option<string>)
    ensures r.Some? <==> AsList(Get(p, "authors", Strs(["Unknown"]))).Some? && Year4(p, "2024").Some?
    ensures r.Some? ==> StartsWith(r.value, IeeeAuthors(AsList(Get(p, "authors", Strs(["Unknown"]))).value) + ", \"")
    ensures r.Some? ==> EndsWith(r.value, ", " + Year4(p, "2024").value + ".")
  {
    var xs, year := AsList(Get(p, "authors", Strs(["Unknown"]))), Year4(p, "2024");
    if xs.None? || year.None? then None
    else
      var id := ArxivIdOf(p);
      var head := IeeeAuthors(xs.value) + ", \"";
      var mid := Render(Get(p, "title", Str("Untitled"))) + ",\" *" + Render(Or(Get(p, "journal", Nil), Str("arXiv"))) + "*"
        + (if Truthy(id) then ", " + Render(id) else "");
      var tail := ", " + year.value + ".";
      ConcatEnds(head, mid, tail);
      Some(head + mid + tail)
  }
}
