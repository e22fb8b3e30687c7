# PaperSeek acquisition pipeline in Dafny

This project models the pure logic of PaperSeek, a tool that searches
scholarly sources for papers, deduplicates them, stores them, downloads
their PDFs and formats citations. The model covers:

- the unified `Paper` record and its dictionary projection;
- the arXiv and Semantic Scholar source adapters, whose HTTP exchanges
  are scripted sequences of responses;
- the source manager that concatenates the adapters' results and removes
  repeated titles;
- the two legacy crawlers;
- the JSON/Markdown store's id deduplication;
- the PDF downloader's URL and file-name rules, retry policy and batch
  statistics;
- the BibTeX/APA/MLA/IEEE formatters and the older exporter;
- the configuration, the translator and the favourites list;
- the SQLite library database, as maps.

Python values that cross module boundaries as dictionaries are
`Values.Dict = map<string, Value>`. `Value` is `Nil | Str | Num | Flag | Strs`.
`.get`, truthiness, `or` and `str()` are explicit functions (`Get`,
`Truthy`, `Or`, `Render`).

Where the Python raises, the model returns `None`, or a dedicated
constructor such as `Raised` or `Failed`. Retry loops are recursion over
a scripted sequence of outcomes, and each sleep is recorded as a number
of seconds. Clock readings, the set of files on disk and the decoded
HTTP bodies are parameters.

Strings are sequences of characters. `lower()`, `isalnum()` and
whitespace `split()` use their ASCII meaning.

Modules follow the source files:

| module | file |
|---|---|
| `Papers` | `sources/base.py` |
| `ArxivSource` | `sources/arxiv.py` |
| `SemanticScholar` | `sources/semantic_scholar.py` |
| `SourceManager` | `sources/__init__.py` |
| `LegacyCrawlers` | `arxiv_crawler.py` and `crawler.py` |
| `Storage` | `storage.py` |
| `PdfDownloader` | `pdf_downloader.py` |
| `Citation` | `export/citation.py` |
| `Exporter` | `export.py` |
| `Config` | `config.py` |
| `I18n` | `i18n.py` |
| `Favorites` | `favorites.py` |
| `Database` | `database.py` |

Helper modules:

- `Text`: string operations and their lemmas.
- `Values`: the Python value model.
- `Dates`: date bounds, and the proof that `YYYY-MM-DD` string order is calendar order.
- `Dedup`: first-occurrence deduplication by key.
- `Wrappers`: `Option` and `Field`.

Behaviours of the code worth knowing when reading the model:

- The arXiv adapter sleeps 3 s and then 6 s, never a third time, because
  it makes only three attempts.
- Every HTTP error status is retried, not only 429.
- The Semantic Scholar adapter filters by the full date after asking
  the API for a year range. A paper from the requested year can
  therefore still be dropped (`SemanticScholar.RefiltersByDay`).
- `semantic_scholar` is not a registry key; only `arxiv` and `semantic` are.
- The legacy Semantic Scholar crawler does not filter by date at all.
- `SemanticScholar.search` returns either every parsed item or none.
  `_parse_paper` catches its own exceptions, so the only exceptions
  left are raised before the first item is appended.

## Model

| member | source | states |
|---|---|---|
| Papers.Create | paper_to_action/sources/base.py:14-33 | an omitted category list becomes the empty list; every other field is stored as given |
| Papers.ToDict | paper_to_action/sources/base.py:35-55 | the dictionary has the fourteen field names plus the aliases `summary`, `arxiv_id` and `link`; `summary` equals `abstract`, `link` equals `url`; `arxiv_id` is the source id exactly when the source is `arxiv`, otherwise None |
| Papers.ToDictRoundTrip | paper_to_action/sources/base.py:35-55 | every field can be read back unchanged from the dictionary, so `to_dict` loses nothing |
| Papers.ToDictStoredFields | paper_to_action/sources/base.py:37-53 | the title, authors, summary, published date, source, source id, PDF address and AI summary appear under their own names; there is no `id` key |
| Papers.ToDictInjective | paper_to_action/sources/base.py:35-55 | two papers with the same dictionary are equal |
| SourceManager.GetSource | paper_to_action/sources/__init__.py:17-25 | the name is lower-cased; exactly `arxiv` and `semantic` resolve, every other name gives None |
| SourceManager.ListSources | paper_to_action/sources/__init__.py:17-30 | two entries in registration order, `arxiv` then `semantic`, with distinct lower-case keys that each resolve to their adapter, paired with that adapter's display name and description |
| SourceManager.RegistryNames | paper_to_action/sources/__init__.py:17-25 | lookup ignores case; `semantic_scholar` and the display name `Semantic Scholar` do not resolve |
| SourceManager.SupportsPdfDownload | paper_to_action/sources/base.py:123-130 | both registered adapters report the opposite of the base class default (False) |
| SourceManager.GetPdfUrl | paper_to_action/sources/base.py:98-108 | dispatch: Semantic Scholar returns the recorded PDF address; a non-empty recorded address is returned by either adapter |
| SourceManager.GetDetails | paper_to_action/sources/base.py:110-121 | the arXiv adapter keeps the base default and finds nothing; Semantic Scholar converts the fetched item, None when the request fails or the item raises |
| SourceManager.NormalizeTitle | paper_to_action/sources/__init__.py:90 | the key is lower-case, with no leading, trailing or doubled space |
| SourceManager.NormalizeIdempotent | paper_to_action/sources/__init__.py:90 | normalising a normalised title changes nothing |
| SourceManager.NormalizeIgnoresCase | paper_to_action/sources/__init__.py:90 | a lower-cased title has the same key |
| SourceManager.DedupByTitle | paper_to_action/sources/__init__.py:83-96 | the result is a subsequence of the input with pairwise distinct keys; every input key survives; exactly the first carrier of each key is kept |
| SourceManager.DedupIdempotent | paper_to_action/sources/__init__.py:83-96 | deduplicating a deduplicated list returns it unchanged |
| SourceManager.Deduplicate | paper_to_action/sources/__init__.py:83-96 | the loop with its `seen_titles` set computes the first-carrier definition |
| SourceManager.DedupByTitleWalk | paper_to_action/sources/__init__.py:83-96 | the title filter is the first-occurrence walk started with no title seen |
| SourceManager.Names | paper_to_action/sources/__init__.py:54-55 | None becomes the default source alone; a given list is used as is |
| SourceManager.GatherAppend | paper_to_action/sources/__init__.py:59-73 | the results for `a + b` are those for `a` followed by those for `b` |
| SourceManager.GatherOne | paper_to_action/sources/__init__.py:59-73 | one name yields its adapter's results, or nothing when it does not resolve |
| SourceManager.Search | paper_to_action/sources/__init__.py:32-81 | the result is a subsequence of the in-order concatenation, with distinct title keys and every key kept |
| SourceManager.SearchDefault | paper_to_action/sources/__init__.py:54-59 | without names only arXiv is queried |
| SourceManager.SearchEmpty | paper_to_action/sources/__init__.py:54-59 | an explicit empty list returns the empty list |
| SourceManager.SearchSkipsUnknown | paper_to_action/sources/__init__.py:59-73 | an unknown name anywhere in the list changes nothing and does not abort the others |
| SourceManager.SearchBoth | paper_to_action/sources/__init__.py:57-76 | arXiv's survivors come first, then the Semantic Scholar papers whose titles arXiv did not return |
| Dedup.FirstByKeyIsFirsts | paper_to_action/sources/__init__.py:88-94 | the left-to-right walk with a `seen` set equals the reference "first carriers" definition |
| Dedup.FirstByKeyAppend | paper_to_action/sources/__init__.py:88-94 | deduplicating `a + b` keeps `a`'s survivors, then those of `b` whose keys `a` did not carry |
| Dedup.FirstByKeyKeys | paper_to_action/sources/__init__.py:88-94 | the output's keys are exactly the input's keys that were not already seen |
| Dedup.FirstByKeyDistinct | paper_to_action/sources/__init__.py:88-94 | no two output elements share a key, and no output key was already seen |
| Dedup.FirstsComplete | paper_to_action/sources/__init__.py:88-94 | every element that is the first to carry its key is kept |
| Dedup.FirstsSound | paper_to_action/sources/__init__.py:88-94 | every kept element is the first to carry its key |
| ArxivSource.ParseEntry | paper_to_action/sources/arxiv.py:114-182 | kept exactly when title, summary, published, updated and id are present and the date part lies in the inclusive window; filtered exactly when the four texts are present but the date is outside; a kept entry has source `arxiv`, the id after the last `/abs/`, cleaned title and summary, the published and updated texts as given, and a PDF address |
| ArxivSource.ParseEntryFields | paper_to_action/sources/arxiv.py:130-176 | a kept entry's authors are the present names in order, its categories the non-empty terms in order, its DOI the one found; the links default to `https://arxiv.org/abs/<id>` and `https://arxiv.org/pdf/<id>.pdf`; journal, citations and AI summary are unset |
| ArxivSource.NonEmptyTerms | paper_to_action/sources/arxiv.py:151-155 | every surviving term is non-empty (the filter's full behaviour is pinned down by the two lemmas below) |
| ArxivSource.NonEmptyTermsOne | paper_to_action/sources/arxiv.py:152-155 | one category is kept exactly when its term is present and non-empty |
| ArxivSource.NonEmptyTermsAppend | paper_to_action/sources/arxiv.py:151-155 | the terms kept from consecutive lists are those of each list, side by side in order |
| ArxivSource.ParseEntries | paper_to_action/sources/arxiv.py:105-183 | the kept papers are at most the entries, all `arxiv`, all inside the window, all with a PDF address |
| ArxivSource.ParseEntriesOne | paper_to_action/sources/arxiv.py:113-182 | a single entry gives its paper when kept and nothing otherwise |
| ArxivSource.ParseEntriesAppend | paper_to_action/sources/arxiv.py:113-182 | the papers of consecutive entry lists are those of each list, side by side in order |
| ArxivSource.ParseResponse | paper_to_action/sources/arxiv.py:100-187 | XML the parser rejects yields no papers; otherwise the parse of the entries |
| ArxivSource.ParseEntriesSkips | paper_to_action/sources/arxiv.py:180-182 | a failing or filtered entry is dropped and the entries around it are kept in order |
| ArxivSource.Backoff | paper_to_action/sources/arxiv.py:61-89 | `n` delays, the first being the initial delay |
| ArxivSource.BackoffDoubles | paper_to_action/sources/arxiv.py:72-89 | each delay after the first is twice the one before it |
| ArxivSource.SearchFrom | paper_to_action/sources/arxiv.py:64-96 | over the remaining attempts: at most that many requests; every request before the last got a retryable answer; the last answer was final or no attempt was left; the sleeps are the doubling backoff delays of the retried requests, then the cooldown after a success |
| ArxivSource.Search | paper_to_action/sources/arxiv.py:58-98 | at most three requests; all but the last were retryable, and the last was final or the third; the papers are those harvested from the last answer (only a successful body gives any), all `arxiv` and inside the window; the sleeps are the doubling backoff of the retried requests and then the pause after the last answer |
| ArxivSource.RetryThenOtherErrorStops | paper_to_action/sources/arxiv.py:84-96 | a retryable answer then another exception: two requests, one 3-second sleep, no papers |
| ArxivSource.ThreeRateLimits | paper_to_action/sources/arxiv.py:68-76 | three 429s: three requests, sleeps of 3 s and 6 s, no papers |
| ArxivSource.OtherErrorStops | paper_to_action/sources/arxiv.py:94-96 | a non-HTTP exception ends the call after one request, with no sleep and no papers |
| ArxivSource.SuccessAfterRetries | paper_to_action/sources/arxiv.py:64-93 | success after `k` retryable failures parses that body, sleeps the `k` backoff delays, then one 1-second cooldown |
| ArxivSource.SearchFromSuccess | paper_to_action/sources/arxiv.py:63-93 | from any delay, retryable answers followed by a success make one request each, sleep the doubling delays and end with the 1-second cooldown |
| ArxivSource.AllRetryableGivesUp | paper_to_action/sources/arxiv.py:68-93 | 429s or HTTP errors on all three attempts give up with sleeps 3 s and 6 s and no papers |
| ArxivSource.GetPdfUrl | paper_to_action/sources/arxiv.py:189-197 | the recorded address when non-empty; else the arXiv PDF address of an arXiv paper with an id; None exactly when neither applies |
| ArxivSource.ParsedPapersHavePdf | paper_to_action/sources/arxiv.py:170-174 | every parsed paper has a PDF address that `get_pdf_url` returns |
| SemanticScholar.YearRange | paper_to_action/sources/semantic_scholar.py:59-67 | set exactly when a bound is given: `S-E`, `S-` or `-E` from the first four characters of each bound |
| SemanticScholar.BuildParams | paper_to_action/sources/semantic_scholar.py:52-67 | the query is the keywords; the limit is the smaller of `max_results` and 100; the year as above |
| SemanticScholar.YearRangeSplits | paper_to_action/sources/semantic_scholar.py:59-63 | with both bounds the year parameter splits at its one dash into the two years |
| SemanticScholar.AbstractOf | paper_to_action/sources/semantic_scholar.py:104 | never empty; a non-empty abstract is kept, anything else is the placeholder |
| SemanticScholar.PubDate | paper_to_action/sources/semantic_scholar.py:113-115 | a non-empty `publicationDate` is used; otherwise the year's 1 January when a `year` key exists; empty only when neither exists |
| SemanticScholar.Citations | paper_to_action/sources/semantic_scholar.py:147 | a missing count is 0; a null count stays None; a value is kept |
| SemanticScholar.ParseItem | paper_to_action/sources/semantic_scholar.py:94-169 | a paper exactly when the item does not raise and its date passes; source `semantic_scholar`, no categories, id from `paperId`, `Unknown` for a missing date, the abstract or its placeholder |
| SemanticScholar.ParseItemFields | paper_to_action/sources/semantic_scholar.py:103-161 | the title read with an empty default, the present author names in order, a given `url` kept, the DOI from `externalIds`, the open-access address, and the journal name from a truthy `journal` |
| SemanticScholar.ParseItems | paper_to_action/sources/semantic_scholar.py:79-83 | at most one paper per item, all `semantic_scholar`, each undated or inside the window |
| SemanticScholar.ParseItemsOne | paper_to_action/sources/semantic_scholar.py:79-83 | a single item gives its paper when it parses and nothing otherwise |
| SemanticScholar.ParseItemsAppend | paper_to_action/sources/semantic_scholar.py:79-83 | parsing a concatenation is the concatenation of the parses: failing items are skipped and the rest keep their order |
| SemanticScholar.Search | paper_to_action/sources/semantic_scholar.py:28-92 | the parameters are those built from the arguments; a failed request or missing or null `data` gives no papers; otherwise the parse of the items |
| SemanticScholar.GetDetails | paper_to_action/sources/semantic_scholar.py:179-195 | None when the request fails; otherwise the item parsed with no date window, a paper exactly when it does not raise |
| SemanticScholar.GetPdfUrl | paper_to_action/sources/semantic_scholar.py:171-173 | the open-access address recorded on the paper |
| SemanticScholar.RefiltersByDay | paper_to_action/sources/semantic_scholar.py:59-122 | a start date of 2024-06-01 asks for `2024-` yet drops a paper dated 2024-03-15 |
| SemanticScholar.YearOnlyIsJanuaryFirst | paper_to_action/sources/semantic_scholar.py:113-122 | an item with only a year is dated 1 January and is dropped by a later start in that year |
| SemanticScholar.NoBoundsKeepsAll | paper_to_action/sources/semantic_scholar.py:118-122 | without bounds an item parses exactly when it does not raise |
| SemanticScholar.UndatedIsUnknown | paper_to_action/sources/semantic_scholar.py:118-154 | an undated item is never filtered and is published as `Unknown` |
| Dates.InRangeInclusive | paper_to_action/sources/arxiv.py:124-128 | a date equal to both bounds is kept |
| Dates.FormatOrder | paper_to_action/arxiv_crawler.py:94 | on valid dates the `%Y-%m-%d` strings compare as the dates do, and equal strings mean equal dates |
| Dates.FormattedFilterAgrees | paper_to_action/arxiv_crawler.py:76-94 | the calendar filter keeps a date exactly when the string filter keeps its formatted string |
| Values.PresentOne | paper_to_action/sources/arxiv.py:132-135 | one author element contributes its name when it has one and nothing otherwise |
| Values.PresentAppend | paper_to_action/sources/arxiv.py:131-135 | the names gathered from consecutive author lists are those of each list, side by side in order |
| Text.FirstPieceIsPrefix | paper_to_action/export.py:42 | `split(c)[0]` is the longest prefix free of `c`: it is followed by `c` or is the whole string |
| Text.ReplaceCharPointwise | paper_to_action/arxiv_crawler.py:91 | replacing one character by another keeps the length and changes exactly the positions holding that character |
| LegacyCrawlers.Terms | paper_to_action/arxiv_crawler.py:51 | one stripped term per comma-separated piece, in order |
| LegacyCrawlers.KeywordClause | paper_to_action/arxiv_crawler.py:49-56 | without a comma, the keywords quoted as given; with one, the stripped terms OR-ed in parentheses |
| LegacyCrawlers.QueryParts | paper_to_action/arxiv_crawler.py:46-60 | one part for non-empty keywords plus one for a given category |
| LegacyCrawlers.BuildQuery | paper_to_action/arxiv_crawler.py:46-62 | empty for no keywords and no category; the keyword clause, `cat:<c>`, or the clause ` AND cat:<c>` |
| LegacyCrawlers.TermsRejoin | paper_to_action/arxiv_crawler.py:51-52 | the pieces rejoin to the keywords; there is more than one term exactly when there is a comma |
| LegacyCrawlers.SingleKeywordUnstripped | paper_to_action/arxiv_crawler.py:55-56 | a single keyword with spaces is quoted unstripped |
| LegacyCrawlers.KeywordWithCategory | paper_to_action/crawler.py:41-53 | a keyword and a category give `all:"k" AND cat:c` |
| LegacyCrawlers.IdFromEntryId | paper_to_action/arxiv_crawler.py:93 | the last `/` piece contains no `/` |
| LegacyCrawlers.OneLine | paper_to_action/arxiv_crawler.py:91 | same length; every line break becomes a space and every other character is kept |
| LegacyCrawlers.OneLineHasNoBreak | paper_to_action/arxiv_crawler.py:91 | no line break remains in the summary |
| LegacyCrawlers.ResultDict | paper_to_action/crawler.py:76-86 | the eight keys, plus `source: arxiv` in crawler.py; the given id under `arxiv_id` |
| LegacyCrawlers.ResultDictFields | paper_to_action/crawler.py:76-86 | title, authors, PDF address, categories and primary category copied; the date formatted `YYYY-MM-DD`; the summary on one line |
| LegacyCrawlers.ResultDictTagged | paper_to_action/crawler.py:77-82 | a slash-free id is stored as `arxiv_id`, and `source: arxiv` is present when the variant adds it |
| LegacyCrawlers.FilterResults | paper_to_action/arxiv_crawler.py:72-98 | at most one dictionary per result |
| LegacyCrawlers.FilterChecked | paper_to_action/crawler.py:62-90 | with the bounds as text: `strptime` raises exactly when some result reaches a malformed bound (the start is read for every result, the end for those the start keeps); with no malformed bound, the filtered dictionaries |
| LegacyCrawlers.MalformedEndUnread | paper_to_action/crawler.py:64-72 | a malformed end date is never read while every result falls before the start: no error and no dictionaries |
| LegacyCrawlers.InWindow | paper_to_action/crawler.py:63-74 | the reference filter: at most the results, each inside the window |
| LegacyCrawlers.InWindowOne | paper_to_action/crawler.py:63-74 | a single result is kept exactly when its date lies in the window |
| LegacyCrawlers.InWindowAppend | paper_to_action/crawler.py:63-74 | the results kept from consecutive lists are those of each list, side by side in order |
| LegacyCrawlers.ShapeAll | paper_to_action/crawler.py:76-87 | each result shaped into its dictionary, in order |
| LegacyCrawlers.FilterResultsMatchesWindow | paper_to_action/crawler.py:62-90 | the loop equals shaping the in-window results in library order |
| LegacyCrawlers.FilterResultsTagged | paper_to_action/crawler.py:62-90 | every dictionary kept carries a slash-free `arxiv_id`, and `source: arxiv` when the variant adds it |
| LegacyCrawlers.WindowInclusive | paper_to_action/crawler.py:66-74 | a date on both bounds is kept |
| LegacyCrawlers.WindowMatchesStrings | paper_to_action/crawler.py:64-74 | the calendar-date window agrees with comparing the printed dates |
| LegacyCrawlers.GetPaperById | paper_to_action/arxiv_crawler.py:103-130 | a dictionary exactly when a result is found, keyed by the id asked for |
| LegacyCrawlers.FieldValue | paper_to_action/crawler.py:146-151 | a string value exactly when the key holds one |
| LegacyCrawlers.CrawlYear | paper_to_action/crawler.py:130-135 | set exactly when a start date is given: its text before the first dash, a dash, and the end date's or the current year |
| LegacyCrawlers.ItemDict | paper_to_action/crawler.py:144-153 | the eight keys, source `semantic_scholar`, no categories, `pdf_url` from `url`, `source_id` from `paperId` |
| LegacyCrawlers.ItemDicts | paper_to_action/crawler.py:143-154 | one dictionary per item, in order |
| LegacyCrawlers.Crawl | paper_to_action/crawler.py:115-161 | the limit is `max_results`; a failure, a missing or null `data`, or any item that raises gives no papers; otherwise exactly one dictionary per item, in order, with no date filter |
| LegacyCrawlers.EndAloneSetsNoYear | paper_to_action/crawler.py:130-135 | an end date alone sets no year |
| LegacyCrawlers.NamelessAuthorDiscardsAll | paper_to_action/crawler.py:143-161 | one author without a name discards the whole response |
| Storage.DedupIdsIsFirstByKey | paper_to_action/storage.py:159-166 | the loop is first-occurrence dedup by id of the papers that have a truthy id |
| Storage.Deduplicate | paper_to_action/storage.py:149-172 | a subsequence in which every paper has a truthy id, ids are distinct, every truthy input id survives, and each survivor is the first with its id |
| Storage.FilterHasId | paper_to_action/storage.py:163-164 | exactly the papers with a truthy id pass the id test |
| Storage.DropsMissingIds | paper_to_action/storage.py:163-164 | a paper without a truthy id never survives |
| Storage.DeduplicateIdempotent | paper_to_action/storage.py:149-172 | deduplicating twice is deduplicating once |
| Storage.KeepsFirstOfRepeat | paper_to_action/storage.py:164-166 | of two papers with the same id, the first is kept |
| Storage.AuthorLine | paper_to_action/storage.py:83-85 | up to three authors joined by `, `; for more, the first three followed by ` et al.` |
| Storage.AuthorLineFirstFour | paper_to_action/storage.py:83-85 | only the first four authors matter |
| Storage.AuthorLineThree | paper_to_action/storage.py:83-85 | three authors are listed in full without a suffix |
| PdfDownloader.GetPdfUrl | paper_to_action/pdf_downloader.py:54-71 | always the arXiv PDF base, the cleaned id and `.pdf` |
| PdfDownloader.StripHostHttps | paper_to_action/pdf_downloader.py:64-65 | the `https://` host is removed by the second deletion |
| PdfDownloader.StripPathAbs | paper_to_action/pdf_downloader.py:66-68 | `abs/<id>` loses its prefix |
| PdfDownloader.PdfUrlForms | paper_to_action/pdf_downloader.py:59-71 | a plain id, `abs/<id>` and `https://arxiv.org/abs/<id>` give the same address |
| PdfDownloader.SafeChars | paper_to_action/pdf_downloader.py:85 | only alphanumerics, space, `-` and `_` remain |
| PdfDownloader.SafeTitle | paper_to_action/pdf_downloader.py:85-88 | at most 50 characters, all safe |
| PdfDownloader.FileId | paper_to_action/pdf_downloader.py:83 | the id part has no `/` |
| PdfDownloader.SanitizeFilename | paper_to_action/pdf_downloader.py:73-91 | `<id>_<safe title>.pdf`, with no path separator |
| PdfDownloader.Delays | paper_to_action/pdf_downloader.py:139-159 | the `i`-th delay is `2**i` |
| PdfDownloader.RetryFrom | paper_to_action/pdf_downloader.py:104-164 | from a given attempt: every attempt before the last was retryable; one sleep of `2**attempt` between consecutive attempts and none after the last |
| PdfDownloader.DownloadWithRetry | paper_to_action/pdf_downloader.py:93-166 | no attempts allowed gives up at once; otherwise at most `max_retries` requests, every one before the last retryable, the last final or the budget spent; success exactly when the last attempt is a 200 PDF of at least 1000 bytes, else that attempt's failure; sleeps 1, 2, 4, … between attempts |
| PdfDownloader.StopsAtOnce | paper_to_action/pdf_downloader.py:113-164 | 404, 403, a non-PDF answer, a small file or an unknown exception stop after one request without sleeping |
| PdfDownloader.ExhaustsRetries | paper_to_action/pdf_downloader.py:139-166 | all attempts retryable: `max_retries` requests, no sleep after the last, failure |
| PdfDownloader.DefaultDelays | paper_to_action/pdf_downloader.py:139-161 | three timeouts with the default three attempts sleep 1 s and 2 s |
| PdfDownloader.DownloadPaper | paper_to_action/pdf_downloader.py:168-214 | a falsy id fails without a request; a non-string id or title raises; id and title reported as read; success exactly when a path is reported; the path is under the output directory; an existing file means no request |
| PdfDownloader.DownloadPaperFields | paper_to_action/pdf_downloader.py:189-214 | the address is the id's PDF address and the path the sanitised file name joined to the output directory; an existing file succeeds with no request; otherwise success, failure, requests and sleeps are those of the retry loop |
| PdfDownloader.ExistingFileSkipsDownload | paper_to_action/pdf_downloader.py:197-205 | a file already on disk succeeds without any request |
| PdfDownloader.CountOk | paper_to_action/pdf_downloader.py:244-247 | the count of successes never exceeds the results |
| PdfDownloader.BatchFrom | paper_to_action/pdf_downloader.py:235-250 | from paper `i` on: one result per paper, earlier results kept, successes plus failures equal the total |
| PdfDownloader.BatchDownload | paper_to_action/pdf_downloader.py:216-257 | one result per paper; successes plus failures equal the total; the success count is the number of successful results; one pause between consecutive papers; a raising paper aborts the batch after one pause per paper before it |
| PdfDownloader.BatchDownloadResults | paper_to_action/pdf_downloader.py:235-242 | the `k`-th result is the download of the `k`-th paper, with the files on disk at the start plus those the earlier papers' successful downloads saved |
| PdfDownloader.BatchStep | paper_to_action/pdf_downloader.py:235-250 | a paper that raises aborts the batch; otherwise its result is recorded and the counters advance |
| PdfDownloader.CompletedRaises | paper_to_action/pdf_downloader.py:235-250 | every paper before that index finishes and the paper at it raises |
| PdfDownloader.BatchFromAborts | paper_to_action/pdf_downloader.py:235-250 | the batch is aborted exactly when some paper raises |
| PdfDownloader.BatchFromResults | paper_to_action/pdf_downloader.py:235-242 | from paper `i` on, each result is the download of its paper, with the files saved by the successful downloads before it |
| PdfDownloader.BatchLoop | paper_to_action/pdf_downloader.py:231-257 | for any per-paper download, the loop with running counters agrees with the batch definition: it raises exactly when the definition does, and then has paused once per finished paper; otherwise it holds the same results and counts, with one pause between consecutive papers |
| Citation.Year4 | paper_to_action/export/citation.py:104 | at most four characters; the default when `published` is absent; None when it is not a string |
| Citation.ArxivIdOf | paper_to_action/export/citation.py:113 | `arxiv_id` when truthy, else `source_id` |
| Citation.AlnumOnly | paper_to_action/export/citation.py:28 | only alphanumerics remain, and an all-alphanumeric word is unchanged |
| Citation.KeyAuthor | paper_to_action/export/citation.py:26 | `Unknown` without authors; otherwise a non-empty, space-free last word |
| Citation.KeyTitle | paper_to_action/export/citation.py:28 | alphanumerics only; present exactly when the title is a string with a word |
| Citation.CiteKey | paper_to_action/export/citation.py:26-29 | present exactly when its three parts are; starts with the author part |
| Citation.CiteKeyNoSpace | paper_to_action/export/citation.py:26-29 | a key has no whitespace when its year has none |
| Citation.BibArxivId | paper_to_action/export/citation.py:38-43 | `arxiv_id or source_id` when truthy or for a non-arXiv paper; otherwise the part after `/abs/` of an arXiv URL |
| Citation.Journal | paper_to_action/export/citation.py:46 | the corrected journal: a truthy journal is used; otherwise `arXiv` with an id and `Unknown` without one |
| Citation.JournalAsWritten | paper_to_action/export/citation.py:46 | as written: a present `journal` key is rendered whatever its value, even None; the `arXiv`/`Unknown` default applies only to a missing key |
| Citation.JournalNoneWritten | paper_to_action/export/citation.py:46 | as written, a null journal is rendered `None`; the corrected form never is |
| Citation.JournalAgrees | paper_to_action/export/citation.py:46 | both forms agree when the journal is absent or truthy |
| Citation.OptLine | paper_to_action/export/citation.py:61-72 | an optional line exactly when its value is truthy, with the value's text |
| Citation.BibFields | paper_to_action/export/citation.py:26-52 | fields exactly when the key and authors can be read; the title with its `Untitled` default, the year as the first four characters; authors joined by ` and `; a truthy journal kept; each optional field present exactly when its value is truthy |
| Citation.BibLines | paper_to_action/export/citation.py:55-74 | five fixed lines, the optional lines, and the closing brace |
| Citation.RenderBib | paper_to_action/export/citation.py:55-74 | starts with `@article{key,` and ends with a brace on its own line |
| Citation.RenderBibLines | paper_to_action/export/citation.py:61-74 | a break-free entry splits back into exactly its lines, one per present option (two for the eprint) |
| Citation.BibtexEntryShape | paper_to_action/export/citation.py:55-74 | an entry exactly when the fields can be read; opens with the key, closes with a brace |
| Citation.EntryList | paper_to_action/export/citation.py:22-76 | one entry per paper, in order |
| Citation.ToBibtex | paper_to_action/export/citation.py:12-78 | the empty list gives the empty string; a result exactly when every entry exists; one paper gives its entry |
| Citation.ToBibtexCons | paper_to_action/export/citation.py:76-78 | consecutive entries are separated by a blank line |
| Citation.ApaAuthors | paper_to_action/export/citation.py:93-101 | `Unknown`, the name, `A & B`, or `A et al.` for 0, 1, 2 or more authors |
| Citation.ApaAuthorsFirstThree | paper_to_action/export/citation.py:93-101 | authors after the third do not matter |
| Citation.ApaJournal | paper_to_action/export/citation.py:110 | always truthy; `arXiv preprint` when the journal is falsy |
| Citation.ToApa | paper_to_action/export/citation.py:81-123 | a citation exactly when the authors and year can be read; starts with authors and year; ends with the italic journal, the id part and a dot |
| Citation.ApaDefaultJournalShowsId | paper_to_action/export/citation.py:110-119 | with the default journal, an id is shown after it |
| Citation.ApaOtherJournalHidesId | paper_to_action/export/citation.py:118-119 | a journal that does not mention arXiv hides the id |
| Citation.DefaultJournalMentionsArxiv | paper_to_action/export/citation.py:110-118 | the default journal, lower-cased, contains `arxiv` |
| Citation.MlaName | paper_to_action/export/citation.py:140-148 | `Unknown` for the empty name; a one-word name as is |
| Citation.MlaNameTwo | paper_to_action/export/citation.py:142-144 | `Given Family` becomes `Family, Given` |
| Citation.MlaNameWords | paper_to_action/export/citation.py:140-146 | a name of two or more words becomes the last word, a comma, then the other words as written |
| Citation.MlaAuthors | paper_to_action/export/citation.py:139-154 | `Unknown` for none; the inverted first author, with `, et al.` exactly when there are others |
| Citation.ToMla | paper_to_action/export/citation.py:126-176 | a citation exactly when the authors are falsy or can be indexed and the year can be read; starts with the author part (`Unknown` for falsy authors) and `. "`, ends with the year |
| Citation.ToMlaFalsyAuthors | paper_to_action/export/citation.py:136-154 | an empty or null author value gives the author part `Unknown` |
| Citation.Initials | paper_to_action/export/citation.py:196 | the first letter of each word |
| Citation.IeeeName | paper_to_action/export/citation.py:194-201 | a one-word name as is |
| Citation.IeeeNameTwo | paper_to_action/export/citation.py:194-197 | `Ada Lovelace` becomes `A. Lovelace` |
| Citation.IeeeNameWords | paper_to_action/export/citation.py:194-199 | a name of two or more words becomes the initial of each word but the last, each with `. `, then the last word |
| Citation.IeeeNames | paper_to_action/export/citation.py:193-201 | one IEEE name per author, in order |
| Citation.IeeeAuthors | paper_to_action/export/citation.py:192-204 | at most three names; `, et al.` exactly when there are more than three |
| Citation.IeeeAuthorsFirstFour | paper_to_action/export/citation.py:192-204 | only the first four authors matter |
| Citation.ToIeee | paper_to_action/export/citation.py:179-226 | a citation exactly when authors and year can be read; starts with the author part, ends with the year |
| Exporter.YearOf | paper_to_action/export.py:42 | the longest dash-free prefix of `published`, followed by a dash or ending the string; `0000` when `published` is absent; None when it is not a string |
| Exporter.CitationKey | paper_to_action/export.py:11-14 | a key exactly when there is a first author with a word, a readable year and a string title with a word; then the author's last word, the year and the title's first word |
| Exporter.CitationKeyOfWords | paper_to_action/export.py:11-14 | for an author and a title written as words, the key is the author's last word, the year and the title's first word |
| Exporter.ToBibtex | paper_to_action/export.py:8-23 | present exactly when the key and authors can be read; the key line, the title, the authors joined by ` and `, the year, journal `ArXiv preprint` and the PDF address as url, in that order |
| Exporter.BibtexNeedsAuthors | paper_to_action/export.py:11 | an empty author list has no entry |
| Exporter.AuthorLinesSnoc | paper_to_action/export.py:30-31 | adding an author adds one `AU` line at the end |
| Exporter.AuthorLinesCount | paper_to_action/export.py:30-31 | with break-free names, exactly one line per author |
| Exporter.ToRis | paper_to_action/export.py:26-35 | a record exactly when authors and date can be read; `TY  - JOUR`, the title, one `AU` line per author in order (AuthorLines), the date with dashes turned into slashes (RisDate), the PDF address and `ER  - ` |
| Exporter.RisDate | paper_to_action/export.py:32 | same length; every `-` becomes `/` and every other character is kept |
| Exporter.RisDateDashes | paper_to_action/export.py:32 | no `-` remains; a dash-free date is unchanged |
| Exporter.StyleOf | paper_to_action/export.py:44-48 | APA or MLA exactly when the lower-cased style names it |
| Exporter.StyleIgnoresCase | paper_to_action/export.py:44-48 | the style is chosen without regard to case |
| Exporter.MlaAuthor | paper_to_action/export.py:50-53 | `Unknown` for none; the first author, with ` et al.` exactly when there are others |
| Exporter.GenerateCitation | paper_to_action/export.py:38-55 | a citation exactly when authors and year can be read; APA is the authors joined by `, ` then ` (year). title. ArXiv.`; MLA is the MLA author part and ` "title` then `." ArXiv, year.`; any other style is `title - authors (year)` |
| Exporter.DefaultStyleIsApa | paper_to_action/export.py:38 | without a style argument the APA form is used |
| Exporter.CitationIgnoresCase | paper_to_action/export.py:44-55 | the same citation for any case of the style name |
| Config.Load | paper_to_action/config.py:17-60 | every default key is present; file values win; other keys keep their defaults; no file or an unreadable one gives the defaults |
| Config.GetKey | paper_to_action/config.py:74-76 | the fallback only when the key is absent |
| Config.SetKey | paper_to_action/config.py:78-80 | the key takes the value; every other key is unchanged |
| Config.GetAfterSet | paper_to_action/config.py:74-80 | reading back a key just set gives the value |
| Config.GetOtherAfterSet | paper_to_action/config.py:74-80 | setting a key does not change another key |
| Config.SetRobotName | paper_to_action/config.py:82-86 | the name is stored and nothing else changes |
| Config.SetApiConfig | paper_to_action/config.py:88-99 | the key is always set; base URL and model only when given non-empty; nothing else changes |
| Config.DefaultsNotConfigured | paper_to_action/config.py:101-103 | the defaults are not configured |
| Config.ConfiguredAfterSetApi | paper_to_action/config.py:88-103 | after `set_api_config` the configuration is usable exactly when the key is non-empty |
| Config.Mask | paper_to_action/config.py:115-116 | a key over 14 characters shows its first 10 characters, then `...`, then its last 4 (17 characters); a shorter one shows `***` |
| Config.MaskHidesMiddle | paper_to_action/config.py:115-116 | long keys agreeing on the shown ends mask alike |
| Config.MaskShortKeys | paper_to_action/config.py:115-116 | all short keys mask alike |
| Config.DisplayValue | paper_to_action/config.py:113-120 | a truthy API key is masked; everything else printed as is; a truthy number or flag key raises |
| Config.DisplayedKeyIsShort | paper_to_action/config.py:115-118 | a non-empty key is displayed in at most 17 characters |
| Config.SetLanguage | paper_to_action/config.py:130-146 | only `zh` and `en` are stored; any other code changes nothing |
| Config.GetLanguage | paper_to_action/config.py:148-155 | the stored value, `zh` when absent |
| Config.LanguageStaysValid | paper_to_action/config.py:130-155 | the defaults and every setter keep the reported language supported |
| Config.SetThenGetLanguage | paper_to_action/config.py:130-155 | a supported code is reported back; an unsupported one leaves the report unchanged |
| Config.FileLanguageWins | paper_to_action/config.py:148-155 | a language in the file overrides the default, even an unsupported one |
| I18n.New | paper_to_action/i18n.py:186-193 | a supported code is kept and any other becomes `zh`, so the language is always supported |
| I18n.SetLanguage | paper_to_action/i18n.py:195-198 | a supported code is taken; any other leaves the translator unchanged; supported stays supported |
| I18n.Get | paper_to_action/i18n.py:200-220 | the stored text for the current language, or the key itself when missing |
| I18n.GetText | paper_to_action/i18n.py:231-247 | an explicit non-empty language uses a fresh translator; otherwise the global one answers |
| I18n.ValidFindsTable | paper_to_action/i18n.py:193-211 | a supported language always finds its own table |
| I18n.GetAfterSetLanguage | paper_to_action/i18n.py:195-211 | after switching, lookups read the new language's table |
| I18n.MissingKeyIsEchoed | paper_to_action/i18n.py:211 | a key unknown to every table comes back unchanged |
| I18n.ExplicitLanguageIgnoresGlobal | paper_to_action/i18n.py:243-245 | an explicit language does not consult the global translator |
| I18n.UnknownExplicitLanguageIsChinese | paper_to_action/i18n.py:243-245 | an unsupported explicit language reads the Chinese table |
| Favorites.FirstIndex | paper_to_action/favorites.py:70-73 | the first entry with the id; None exactly when no entry has it |
| Favorites.Entry | paper_to_action/favorites.py:76-83 | the entry carries the paper's id |
| Favorites.AddFavorite | paper_to_action/favorites.py:53-106 | a listed id changes nothing and reports False; a non-string PDF path raises before anything is saved; otherwise exactly one entry is appended and saved with the id, title, date and data file, then True is reported, or the call raises after the save when the title is None, a number or a flag |
| Favorites.NullTitleRaisesAfterSave | paper_to_action/favorites.py:101-105 | a paper with a null title is saved, and the call then raises |
| Favorites.AddKeepsDistinct | paper_to_action/favorites.py:70-85 | adding keeps the ids pairwise distinct |
| Favorites.RemoveFavorite | paper_to_action/favorites.py:108-138 | True exactly when the id is listed; then only the first entry with it is removed and the rest keep their order; otherwise nothing changes |
| Favorites.RemoveUndoesAdd | paper_to_action/favorites.py:53-138 | removing what was just added (a new id whose PDF path does not raise) restores the list, whatever the add reported |
| Favorites.RemoveErasesId | paper_to_action/favorites.py:122-135 | with distinct ids, no entry with the removed id is left |
| Favorites.RemoveKeepsDistinct | paper_to_action/favorites.py:122-135 | removing keeps the ids distinct |
| Favorites.ListFavorites | paper_to_action/favorites.py:140-148 | the stored list, or empty when there is none |
| Favorites.ListAfterAdd | paper_to_action/favorites.py:140-148 | listing after an add that saved shows one more entry, the new one last |
| Favorites.DisplayTitle | paper_to_action/favorites.py:191 | at most 50 characters; a long title becomes its first 47 and `...`; a short one is kept |
| Favorites.DisplayTitlePrefixOnly | paper_to_action/favorites.py:191 | long titles agreeing on 47 characters display alike |
| Database.Bind | paper_to_action/database.py:100-109 | None stores NULL, a string its text, an integer its decimal text, a flag `1` or `0`; a list or an integer outside 64 bits cannot be bound |
| Database.OverflowNotStored | paper_to_action/database.py:100-119 | a bound field holding an integer beyond 64 bits makes `add_paper` return -1 and store nothing |
| Database.EmptyValid | paper_to_action/database.py:28-76 | a new database meets the schema's guarantees |
| Database.KeysUnique | paper_to_action/database.py:42 | no two rows share `(source, source_id)` |
| Database.Params | paper_to_action/database.py:100-109 | the values exactly when none is a list; each is the bound field with its default |
| Database.Coalesce | paper_to_action/database.py:98 | a new non-null AI summary wins, otherwise the old one is kept |
| Database.Upsert | paper_to_action/database.py:90-119 | keeps the schema's guarantees; -1 and no change exactly when binding or NOT NULL fails; a known key keeps its id, dates and flags and takes the new title, authors, summary and PDF address; a new key gets a fresh id, the timestamp and cleared flags; other rows and tags unchanged |
| Database.SourceIdAsWritten | paper_to_action/database.py:101 | `arxiv_id`, else `id` |
| Database.SourceId | paper_to_action/database.py:101 | `arxiv_id`, else `id`, else the paper's own `source_id` |
| Database.AddPaperAsWritten | paper_to_action/database.py:81-121 | the upsert under the key as written |
| Database.AddPaper | paper_to_action/database.py:81-121 | the upsert under the corrected key |
| Database.AsWrittenRejectsNonArxiv | paper_to_action/database.py:101 | as written, a non-arXiv `Paper.to_dict` gives -1 and no change |
| Database.AsWrittenRejectsLegacyResult | paper_to_action/database.py:101 | as written, a dictionary without `arxiv_id` and `id` gives -1 and no change |
| Database.CorrectedStoresEveryPaper | paper_to_action/database.py:90-116 | with the corrected key every `Paper.to_dict` is stored under its own source and id |
| Database.AddPaperTwice | paper_to_action/database.py:93-116 | adding the same paper again returns the same id and adds no row |
| Database.ToggleFavorite | paper_to_action/database.py:149-162 | an existing flag is flipped and the new value returned; an unknown id returns False and changes nothing |
| Database.ToggleTwice | paper_to_action/database.py:149-162 | toggling twice restores the database |
| Database.AddTag | paper_to_action/database.py:164-175 | a new name gets a fresh id and the colour; a known name returns its id and changes nothing |
| Database.AddTagIdempotent | paper_to_action/database.py:168-173 | a second call with the same name returns the same id and changes nothing |
| Database.TagPaper | paper_to_action/database.py:177-187 | the pair is recorded once, existing pairs are kept, and at most one pair is added |
| Database.TagPaperTwice | paper_to_action/database.py:182-185 | tagging twice records the pair once |
| Database.AllPapers | paper_to_action/database.py:134-147 | every row, or exactly the favourites when filtering |
| Database.ToggleShowsInFavorites | paper_to_action/database.py:139-162 | a paper toggled on appears in the favourites listing, and one toggled off does not |
| Database.RowToDict | paper_to_action/database.py:207-223 | every column under its dictionary name (id, source, ids, title, authors, summary, addresses, dates, AI summary), with flags as booleans |
| Database.StoredRowReadsBack | paper_to_action/database.py:207-223 | a stored paper reads back with the values the upsert bound |
| Database.StoredPaperReadsBack | paper_to_action/database.py:81-121 | a stored `Paper.to_dict` reads back with its source, id, title, authors, summary and PDF address |

## Left out

- PdfDownloader.BatchDownloadResults: a download whose response breaks while streaming leaves a partial file that Python does not remove, and a later paper with the same file name then finds it and reports success without a request; the model adds a file only for a successful download.
- PdfDownloader.BatchFromResults: the same partial-file case as PdfDownloader.BatchDownloadResults.
- PdfDownloader.After: an attempt is atomic, so the partial file of a stream broken by a timeout or a truncated body is not added to the files on disk.
- HTTP requests, the `arxiv` library, XML parsing and JSON decoding: their results are scripted inputs (`Response`, `Feed`, `Reply`, `Attempt`, `Result`, `Item`).
- `time.sleep`: each sleep is recorded as a number of seconds (`sleeps`, `pauses`).
- `datetime.now()`, the favourites and database timestamps, and the current year in crawler.py: these are parameters.
- Files and SQLite:
  - JSON and Markdown writes, `load_papers` and `list_saved_files`;
  - the YAML save;
  - the favourites metadata and per-paper JSON files, and the `shutil` copy of the PDF;
  - the SQL engine and connections.
  
  Stores are sequences and maps, and the set of existing files is a parameter.
- `ORDER BY added_date DESC` in `get_all_papers`: the result is a map by id.
- SQLite's exact AUTOINCREMENT bookkeeping: the id counter advances only on a successful insert.
- `get_paper`, `add_note`, `get_paper_notes`, `get_favorite` and `get_output_dir` only read stored data or build a path; they hold no logic beyond what is modelled.
- `display_config` and `display_favorites` tables: only the value cell and the title cell are modelled; the author and tag cells are not.
- `print_download_report` and console messages.
- `export_all_formats`: file writes around the modelled formatters.
- `I18n.__call__` and the module-level `set_language` are `Get` and `SetLanguage` under other names. The module-level `get_i18n` only returns the global translator.
- `str.format` placeholder substitution in `I18n.get`, and the contents of `TEXTS`: the table is a parameter.
- Python value semantics:
  - Full Unicode `lower()`, `isalnum()` and `split()`: the ASCII meaning is used.
  - Python `1 == True`: value equality is structural.
  - List-valued fields that Python would slice or iterate character by character are treated as raising where the model cannot represent them.
- ArxivSource.ParseEntry: an `<author>` whose `<name>` element has no text makes Python append None to the author list; the model has no None author and treats such an element like a missing name.
- SemanticScholar.ParseItem: JSON null for `title`, `paperId` or `url` is read like a missing key. Python keeps None: a None title, a None url instead of the default address, and for a null `paperId` a None source id with a default address ending `/None`.
- SemanticScholar.ParseItem: an author whose `"name"` is JSON null makes Python append None; the model treats it like an author without a `name` key.
- LegacyCrawlers.FilterResults: takes the bounds as calendar dates; the ValueError of `strptime` on a malformed bound is modelled by `LegacyCrawlers.FilterChecked` over an abstract parse outcome, and the exact text `%Y-%m-%d` accepts is not modelled.
- LegacyCrawlers.Crawl: an author whose `"name"` is JSON null is copied as None by Python; the model treats it like a missing name, which raises.
- Citation.BibFields: the journal line uses the corrected `Citation.Journal` (a falsy journal falls back to `arXiv`/`Unknown`); the code as written renders a null journal as `None`, which `Citation.JournalAsWritten` models (see Findings).
- Citation.ToBibtex: built on `Citation.BibFields`, so it also writes the corrected journal rather than `None`.
- Config.Load: a YAML document that parses to something other than a mapping is treated as unreadable.
- Favorites.AddFavorite: an integer `pdf_path` (which `os.path.exists` accepts as a file descriptor) is treated as raising.
- Favorites.AddFavorite: there is no filesystem, so the per-paper file is always written; in Python `open()` raises before the metadata is saved when it cannot create the file, for instance for an id containing `/` such as `hep-th/9901001v1`.
- Database.ToggleFavorite: the connection left open on an unknown id is not modelled.
- The CLI, the LLM client, the VS Code extension, the GitHub search script, packaging, and the configuration setup script: outside the acquisition pipeline.

## Findings

| source | as written | input that shows it | evidently intended | confidence | as-written member | corrected member |
|---|---|---|---|---|---|---|
| paper_to_action/export/citation.py:46 | `paper.get('journal', 'arXiv' if arxiv_id else 'Unknown')` applies the default only to a missing key, so a journal stored as None is written `journal = {None}` | any `Paper.to_dict` with `journal=None`, the default for every arXiv paper | fall back to `arXiv`/`Unknown` for any falsy journal, as to_apa, to_mla and to_ieee do | not executed | Citation.JournalAsWritten, Citation.JournalNoneWritten | Citation.Journal, Citation.JournalAgrees |
| paper_to_action/database.py:101 | `source_id = paper_data.get('arxiv_id') or paper_data.get('id')` | `Paper.to_dict` of any Semantic Scholar paper (no `arxiv_id`, no `id`), or a legacy Semantic Scholar crawler result: `source_id` is bound to NULL, the NOT NULL constraint fails and `add_paper` returns -1 | fall back to the dictionary's own `source_id` | not executed | Database.AddPaperAsWritten, Database.AsWrittenRejectsNonArxiv, Database.AsWrittenRejectsLegacyResult | Database.AddPaper, Database.CorrectedStoresEveryPaper, Database.StoredPaperReadsBack |
