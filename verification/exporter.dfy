/**
  The older `Exporter` helpers: a BibTeX entry, an RIS record and a
  short citation in one of three styles. As in `Citation`, None stands
  for the places where Python raises.
 */
module Exporter {
  import opened Wrappers
  import opened Text
  import opened Values

  /** `paper.get('published', '0000').split('-')[0]`: the text of `published` before its first dash. */
  function YearOf(p: Dict): (r: Option<string>)
    ensures r.Some? <==> Get(p, "published", Str("0000")).Str?
    ensures r.Some? ==> var s := Get(p, "published", Str("0000")).s;
      && StartsWith(s, r.value) && '-' !in r.value
      && (|r.value| == |s| || s[|r.value|] == '-')
    ensures "published" !in p ==> r == Some("0000")
  {
    match Get(p, "published", Str("0000"))
    case Str(s) =>
      FirstPieceIsPrefix(s, '-');
      if "published" !in p then
        assert '-' !in "0000";
        MissingCharNotContained("0000", "-", '-');
        SplitStrNoMatch("0000", "-");
        Some(FirstPiece(s, "-"))
      else Some(FirstPiece(s, "-"))
    case _ => None
  }

  // ---------------------------------------------------------------------------
  // BibTeX
  // ---------------------------------------------------------------------------

  /** `f"{first_author}{year}{title_word}"`: the last name word, the year, the first title word. */
  function Key(names: seq<string>, year: string, words: seq<string>): string
    requires |names| > 0 && |words| > 0
  {
    names[|names| - 1] + year + words[0]
  }

  /**
    The cite key: last word of the first author, year, first word of the
    title. None when there is no first author, the first author or the
    title has no word, or a value is of the wrong kind.
   */
  function CitationKey(p: Dict): (r: Option<string>)
    ensures var authors, title := AsList(Get(p, "authors", Strs(["Unknown"]))), Get(p, "title", Str("title"));
      r.Some? <==>
        && authors.Some? && |authors.value| > 0 && |Words(authors.value[0])| > 0
        && YearOf(p).Some? && title.Str? && |Words(title.s)| > 0
    ensures r.Some? ==>
      var names, words := Words(AsList(Get(p, "authors", Strs(["Unknown"]))).value[0]), Words(Get(p, "title", Str("title")).s);
      r == Some(Key(names, YearOf(p).value, words))
  {
    var authors, year, title := AsList(Get(p, "authors", Strs(["Unknown"]))), YearOf(p), Get(p, "title", Str("title"));
    if authors.None? || |authors.value| == 0 || year.None? || !title.Str? then None
    else
      var names, words := Words(authors.value[0]), Words(title.s);
      if |names| == 0 || |words| == 0 then None
      else Some(Key(names, year.value, words))
  }

  /** `Exporter.to_bibtex`: always journal `ArXiv preprint` and the PDF address as url. */
  function ToBibtex(p: Dict): (r: Option<string>)
    ensures r.Some? <==> CitationKey(p).Some? && AsList(Get(p, "authors", Strs([]))).Some?
    ensures r.Some? ==> StartsWith(r.value, "@article{" + CitationKey(p).value + ",\n")
    ensures r.Some? ==> EndsWith(r.value, "  journal = {ArXiv preprint},\n  url = {" + Render(Get(p, "pdf_url", Nil)) + "}\n}")
    ensures r.Some? ==>
      var authors := AsList(Get(p, "authors", Strs([]))).value;
      r.value == "@article{" + CitationKey(p).value + ",\n"
        + ("  title = {" + Render(Get(p, "title", Nil)) + "},\n"
        + "  author = {" + Join(authors, " and ") + "},\n"
        + "  year = {" + YearOf(p).value + "},\n")
        + ("  journal = {ArXiv preprint},\n  url = {" + Render(Get(p, "pdf_url", Nil)) + "}\n}")
  {
    var key, authors := CitationKey(p), AsList(Get(p, "authors", Strs([])));
    if key.None? || authors.None? then None
    else
      var head := "@article{" + key.value + ",\n";
      var mid := "  title = {" + Render(Get(p, "title", Nil)) + "},\n"
        + "  author = {" + Join(authors.value, " and ") + "},\n"
        + "  year = {" + YearOf(p).value + "},\n";
      var tail := "  journal = {ArXiv preprint},\n  url = {" + Render(Get(p, "pdf_url", Nil)) + "}\n}";
      ConcatEnds(head, mid, tail);
      Some(head + mid + tail)
  }

  /**
    For a first author and a title written as space-separated words, the
    key is the author's last word, the year and the title's first word.
   */
  lemma CitationKeyOfWords(p: Dict, names: seq<string>, others: seq<string>, words: seq<string>)
    requires |names| > 0 && AreWords(names) && |words| > 0 && AreWords(words)
    requires "authors" in p && p["authors"] == Strs([Join(names, " ")] + others)
    requires "title" in p && p["title"] == Str(Join(words, " "))
    requires YearOf(p).Some?
    ensures CitationKey(p) == Some(names[|names| - 1] + YearOf(p).value + words[0])
  {
    WordsOfJoin(names);
    WordsOfJoin(words);
  }

  /** A paper without authors has no BibTeX entry: `[0]` of the empty list raises. */
  lemma BibtexNeedsAuthors(p: Dict)
    requires "authors" in p && p["authors"] == Strs([])
    ensures ToBibtex(p).None?
  {
  }

  // ---------------------------------------------------------------------------
  // RIS
  // ---------------------------------------------------------------------------

  /** One `AU` line per author, in order. */
  function AuthorLines(xs: seq<string>): (r: string)
    ensures |xs| == 0 ==> r == ""
  {
    if |xs| == 0 then "" else "AU  - " + xs[0] + "\n" + AuthorLines(xs[1..])
  }

  /** Adding an author adds one line at the end. */
  lemma {:induction false} AuthorLinesSnoc(xs: seq<string>, a: string)
    ensures AuthorLines(xs + [a]) == AuthorLines(xs) + "AU  - " + a + "\n"
    decreases |xs|
  {
    if |xs| == 0 {
      assert [a][1..] == [];
      assert xs + [a] == [a];
    } else {
      assert (xs + [a])[1..] == xs[1..] + [a];
      assert (xs + [a])[0] == xs[0];
      AuthorLinesSnoc(xs[1..], a);
    }
  }

  /** With names free of line breaks, the block has exactly as many lines as authors. */
  lemma {:induction false} AuthorLinesCount(xs: seq<string>)
    requires forall k :: 0 <= k < |xs| ==> '\n' !in xs[k]
    ensures Count(AuthorLines(xs), '\n') == |xs|
    decreases |xs|
  {
    if |xs| > 0 {
      var line := "AU  - " + xs[0] + "\n";
      AuthorLinesCount(xs[1..]);
      CountAppend(line, AuthorLines(xs[1..]), '\n');
      CountAppend("AU  - " + xs[0], "\n", '\n');
      CountAppend("AU  - ", xs[0], '\n');
      CountAbsent("AU  - ", '\n');
      CountAbsent(xs[0], '\n');
      assert AuthorLines(xs) == line + AuthorLines(xs[1..]);
    }
  }

  /** `Exporter.to_ris`; None when the authors cannot be iterated or `published` is not a string. */
  function ToRis(p: Dict): (r: Option<string>)
    ensures r.Some? <==> AsList(Get(p, "authors", Strs([]))).Some? && Get(p, "published", Str("")).Str?
    ensures r.Some? ==> StartsWith(r.value, "TY  - JOUR\n") && EndsWith(r.value, "ER  - \n")
    ensures r.Some? ==>
      var authors, published := AsList(Get(p, "authors", Strs([]))).value, Get(p, "published", Str("")).s;
      r.value == "TY  - JOUR\n"
        + ("TI  - " + Render(Get(p, "title", Nil)) + "\n" + AuthorLines(authors)
        + "PY  - " + RisDate(published) + "\n" + "UR  - " + Render(Get(p, "pdf_url", Nil)) + "\n")
        + "ER  - \n"
  {
    var authors, published := AsList(Get(p, "authors", Strs([]))), Get(p, "published", Str(""));
    if authors.None? || !published.Str? then None
    else
      var mid := "TI  - " + Render(Get(p, "title", Nil)) + "\n" + AuthorLines(authors.value)
        + "PY  - " + RisDate(published.s) + "\n" + "UR  - " + Render(Get(p, "pdf_url", Nil)) + "\n";
      ConcatEnds("TY  - JOUR\n", mid, "ER  - \n");
      Some("TY  - JOUR\n" + mid + "ER  - \n")
  }

  /** The PY value: `published` with every `-` replaced by `/` and every other character kept. */
  function RisDate(published: string): (r: string)
    ensures |r| == |published|
    ensures forall i :: 0 <= i < |published| ==> r[i] == (if published[i] == '-' then '/' else published[i])
  {
    ReplaceCharPointwise(published, '-', '/');
    ReplaceAll(published, "-", "/")
  }

  /** A date without dashes is written as is; one with dashes keeps none. */
  lemma RisDateDashes(published: string)
    ensures '-' !in RisDate(published)
    ensures '-' !in published ==> RisDate(published) == published
  {
    var r := RisDate(published);
    assert forall i :: 0 <= i < |r| ==> r[i] != '-';
  }

  // ---------------------------------------------------------------------------
  // Short citations
  // ---------------------------------------------------------------------------

  datatype Style = Apa | Mla | Other

  /** `style.lower()` compared with `apa` and `mla`. */
  function StyleOf(style: string): (r: Style)
    ensures r == Apa <==> Lower(style) == "apa"
    ensures r == Mla <==> Lower(style) == "mla"
  {
    if Lower(style) == "apa" then Apa else if Lower(style) == "mla" then Mla else Other
  }

  /** Styles are matched without regard to case. */
  lemma StyleIgnoresCase(style: string)
    ensures StyleOf(Lower(style)) == StyleOf(style)
  {
    LowerIsLowered(style);
    LowerOfLowered(Lower(style));
  }

  /** The MLA author part: the first author, ` et al.` iff there are others, `Unknown` for none. */
  function MlaAuthor(xs: seq<string>): (r: string)
    ensures |xs| == 0 ==> r == "Unknown"
    ensures |xs| == 1 ==> r == xs[0]
    ensures |xs| > 1 ==> r == xs[0] + " et al."
  {
    (if |xs| > 0 then xs[0] else "Unknown") + (if |xs| > 1 then " et al." else "")
  }

  /** `a` followed directly by `b`: it starts with `a`, ends with `b`, and has no other characters. */
  predicate Glued(r: string, a: string, b: string) {
    StartsWith(r, a) && EndsWith(r, b) && |r| == |a| + |b|
  }

  /** A string glued from `a` and `b` is their concatenation. */
  lemma GluedIsConcat(r: string, a: string, b: string)
    requires Glued(r, a, b)
    ensures r == a + b
  {
    assert r == r[..|a|] + r[|a|..];
  }

  /** The APA form: the authors joined by `, `, then the year, the title and `ArXiv.`. */
  function ApaCitation(xs: seq<string>, year: string, title: string): (r: string)
    ensures Glued(r, Join(xs, ", "), " (" + year + "). " + title + ". ArXiv.")
  {
    var tail := " (" + year + "). " + title + ". ArXiv.";
    PairEnds(Join(xs, ", "), tail);
    Join(xs, ", ") + tail
  }

  /** The MLA form: the MLA author part and the quoted title, then `ArXiv` and the year. */
  function MlaCitation(xs: seq<string>, year: string, title: string): (r: string)
    ensures Glued(r, MlaAuthor(xs) + " \"" + title, ".\" ArXiv, " + year + ".")
  {
    var head, tail := MlaAuthor(xs) + " \"" + title, ".\" ArXiv, " + year + ".";
    PairEnds(head, tail);
    head + tail
  }

  /** Any other style: the title and the authors joined by `, `, then the year in parentheses. */
  function DefaultCitation(xs: seq<string>, year: string, title: string): (r: string)
    ensures Glued(r, title + " - " + Join(xs, ", "), " (" + year + ")")
  {
    var head, tail := title + " - " + Join(xs, ", "), " (" + year + ")";
    PairEnds(head, tail);
    head + tail
  }

  /** The style `generate_citation` uses when none is given. */
  const DefaultStyle: string := "apa"

  /** Without a style argument the citation is in APA form. */
  lemma DefaultStyleIsApa()
    ensures StyleOf(DefaultStyle) == Apa
  {
    assert Lower(DefaultStyle) == "apa";
  }

  /**
    `generate_citation`; None when the authors cannot be iterated or
    `published` is not a string. A title stored as None prints `None`.
   */
  function GenerateCitation(p: Dict, style: string): (r: Option<string>)
    ensures r.Some? <==> AsList(Get(p, "authors", Strs([]))).Some? && YearOf(p).Some?
    ensures r.Some? && StyleOf(style) == Apa ==>
      Glued(r.value, Join(AsList(Get(p, "authors", Strs([]))).value, ", "),
            " (" + YearOf(p).value + "). " + Render(Get(p, "title", Nil)) + ". ArXiv.")
    ensures r.Some? && StyleOf(style) == Mla ==>
      Glued(r.value, MlaAuthor(AsList(Get(p, "authors", Strs([]))).value) + " \"" + Render(Get(p, "title", Nil)),
            ".\" ArXiv, " + YearOf(p).value + ".")
    ensures r.Some? && StyleOf(style) == Other ==>
      Glued(r.value, Render(Get(p, "title", Nil)) + " - " + Join(AsList(Get(p, "authors", Strs([]))).value, ", "),
            " (" + YearOf(p).value + ")")
  {
    var authors, year := AsList(Get(p, "authors", Strs([]))), YearOf(p);
    if authors.None? || year.None? then None
    else
      var xs, title := authors.value, Render(Get(p, "title", Nil));
      match StyleOf(style)
      case Apa => Some(ApaCitation(xs, year.value, title))
      case Mla => Some(MlaCitation(xs, year.value, title))
      case Other => Some(DefaultCitation(xs, year.value, title))
  }

  /** The same citation whatever the case of the style name. */
  lemma CitationIgnoresCase(p: Dict, style: string)
    ensures GenerateCitation(p, style) == GenerateCitation(p, Lower(style))
  {
    StyleIgnoresCase(style);
  }
}
