/**
  The PDF downloader without the network and the filesystem: URL
  normalisation, file-name sanitising, the retry policy of
  `download_with_retry` over a scripted sequence of outcomes, the
  per-paper decision of `download_paper` against a set of existing
  files, and the statistics of `batch_download`.
 */
module PdfDownloader {
  import opened Wrappers
  import opened Text
  import opened Values

  // ---------------------------------------------------------------------------
  // URL and file name
  // ---------------------------------------------------------------------------

  const PdfBase: string := "https://arxiv.org/pdf/"

  /** The two host deletions `get_pdf_url` applies first. */
  function StripHost(id: string): string {
    ReplaceAll(ReplaceAll(id, "http://arxiv.org/", ""), "https://arxiv.org/", "")
  }

  /** The three path deletions that follow. */
  function StripPath(id: string): string {
    ReplaceAll(ReplaceAll(ReplaceAll(id, "abs/", ""), "pdf/", ""), ".pdf", "")
  }

  /** The five deletions `get_pdf_url` applies to the id, in order. */
  function CleanId(id: string): string {
    StripPath(StripHost(id))
  }

  /** `get_pdf_url`: always the arXiv PDF address of the cleaned id. */
  function GetPdfUrl(id: string): (r: string)
    ensures StartsWith(r, PdfBase) && EndsWith(r, ".pdf")
    ensures r == PdfBase + CleanId(id) + ".pdf"
  {
    var u := PdfBase + CleanId(id) + ".pdf";
    assert u[..|PdfBase|] == PdfBase;
    assert u[|u| - 4..] == ".pdf";
    u
  }

  /** A new-style arXiv identifier: digits and dots only. */
  predicate IsPlainId(id: string) {
    forall i :: 0 <= i < |id| ==> ('0' <= id[i] <= '9' || id[i] == '.')
  }

  /** A string without `h` has no host to delete. */
  lemma StripHostFree(s: string)
    requires 'h' !in s
    ensures StripHost(s) == s
  {
    MissingCharNotContained(s, "http://arxiv.org/", 'h');
    ReplaceAbsent(s, "http://arxiv.org/", "");
    MissingCharNotContained(s, "https://arxiv.org/", 'h');
    ReplaceAbsent(s, "https://arxiv.org/", "");
  }

  /** `https://arxiv.org/...` does not contain `http://arxiv.org/`: the fifth character is `s`, not `:`. */
  lemma HttpsNotHttp(rest: string)
    requires 'h' !in rest
    ensures !Contains("https://arxiv.org/" + rest, "http://arxiv.org/")
  {
    var s := "https://arxiv.org/" + rest;
    assert s[..17][4] == 's';
    assert s[1..] == "ttps://arxiv.org/" + rest;
    assert 'h' !in s[1..];
    MissingCharNotContained(s[1..], "http://arxiv.org/", 'h');
  }

  /** The `https://` host is deleted by the second deletion, not the first. */
  lemma StripHostHttps(rest: string)
    requires 'h' !in rest
    ensures StripHost("https://arxiv.org/" + rest) == rest
  {
    var s := "https://arxiv.org/" + rest;
    HttpsNotHttp(rest);
    ReplaceAbsent(s, "http://arxiv.org/", "");
    ReplacePrefixDropped("https://arxiv.org/", rest);
    MissingCharNotContained(rest, "https://arxiv.org/", 'h');
    ReplaceAbsent(rest, "https://arxiv.org/", "");
  }

  /** A plain id has no path fragment to delete. */
  lemma StripPathPlain(id: string)
    requires IsPlainId(id)
    ensures StripPath(id) == id
  {
    MissingCharNotContained(id, "abs/", 'a');
    ReplaceAbsent(id, "abs/", "");
    MissingCharNotContained(id, "pdf/", 'p');
    ReplaceAbsent(id, "pdf/", "");
    MissingCharNotContained(id, ".pdf", 'p');
    ReplaceAbsent(id, ".pdf", "");
  }

  /** `abs/<id>` loses its prefix. */
  lemma StripPathAbs(id: string)
    requires IsPlainId(id)
    ensures StripPath("abs/" + id) == id
  {
    ReplacePrefixDropped("abs/", id);
    MissingCharNotContained(id, "abs/", 'a');
    ReplaceAbsent(id, "abs/", "");
    StripPathPlain(id);
  }

  lemma AbsHasNoH(id: string)
    requires IsPlainId(id)
    ensures 'h' !in "abs/" + id
  {
    var s := "abs/" + id;
    assert s[..4] == "abs/" && s[4..] == id;
    assert forall i :: 0 <= i < |s| ==> s[i] == (if i < 4 then s[..4][i] else id[i - 4]);
  }

  /** The three accepted spellings of an id give the same PDF address. */
  lemma PdfUrlForms(id: string)
    requires IsPlainId(id)
    ensures GetPdfUrl(id) == PdfBase + id + ".pdf"
    ensures GetPdfUrl("abs/" + id) == GetPdfUrl(id)
    ensures GetPdfUrl("https://arxiv.org/abs/" + id) == GetPdfUrl(id)
  {
    CleanIdPlain(id);
    CleanIdAbs(id);
    CleanIdFull(id);
  }

  lemma CleanIdPlain(id: string)
    requires IsPlainId(id)
    ensures CleanId(id) == id
  {
    assert 'h' !in id;
    StripHostFree(id);
    StripPathPlain(id);
  }

  lemma CleanIdAbs(id: string)
    requires IsPlainId(id)
    ensures CleanId("abs/" + id) == id
  {
    AbsHasNoH(id);
    StripHostFree("abs/" + id);
    StripPathAbs(id);
  }

  lemma CleanIdFull(id: string)
    requires IsPlainId(id)
    ensures CleanId("https://arxiv.org/abs/" + id) == id
  {
    var rest := "abs/" + id;
    assert "https://arxiv.org/abs/" + id == "https://arxiv.org/" + rest by {
      assert "https://arxiv.org/abs/" == "https://arxiv.org/" + "abs/";
    }
    AbsHasNoH(id);
    StripHostHttps(rest);
    StripPathAbs(id);
  }

  const MaxTitleLength: nat := 50

  predicate SafeChar(c: char) {
    IsAlnum(c) || c == ' ' || c == '-' || c == '_'
  }

  /** `"".join(c for c in title if c.isalnum() or c in (' ', '-', '_'))` */
  function SafeChars(s: string): (r: string)
    ensures |r| <= |s|
    ensures forall i :: 0 <= i < |r| ==> SafeChar(r[i])
    decreases |s|
  {
    if |s| == 0 then ""
    else if SafeChar(s[0]) then [s[0]] + SafeChars(s[1..])
    else SafeChars(s[1..])
  }

  /** The title part: safe characters, stripped, then cut to 50. */
  function SafeTitle(title: string): (r: string)
    ensures |r| <= MaxTitleLength
    ensures forall i :: 0 <= i < |r| ==> SafeChar(r[i])
  {
    var t := Strip(SafeChars(title));
    StripIsSlice(SafeChars(title));
    Take(t, MaxTitleLength)
  }

  /** `arxiv_id.split('/')[-1].replace('.pdf', '')` */
  function FileId(id: string): (r: string)
    ensures '/' !in r
  {
    SplitOnPiecesFree(id, '/');
    assert SplitStr(id, "/") == SplitOn(id, '/');
    var last := LastPiece(id, "/");
    ReplaceKeepsOut(last, ".pdf", "", '/');
    ReplaceAll(last, ".pdf", "")
  }

  /** `sanitize_filename`: `<clean id>_<safe title>.pdf`, never containing a path separator. */
  function SanitizeFilename(title: string, id: string): (r: string)
    ensures r == FileId(id) + "_" + SafeTitle(title) + ".pdf"
    ensures '/' !in r
  {
    var t := SafeTitle(title);
    assert '/' !in t by {
      forall i | 0 <= i < |t| ensures t[i] != '/' { assert SafeChar(t[i]); }
    }
    FileId(id) + "_" + t + ".pdf"
  }

  // ---------------------------------------------------------------------------
  // download_with_retry
  // ---------------------------------------------------------------------------

  /**
    One scripted attempt: an HTTP status with the Content-Type header (""
    when absent) and the size of the file written, a timeout, a
    connection error, or any other exception.
   */
  datatype Attempt = Status(code: int, contentType: string, size: nat) | Timeout | ConnError | OtherExc

  /** The reasons a download fails, in place of the source's messages. */
  datatype Failure =
    | NotPdf(contentType: string)
    | TooSmall(size: nat)
    | NotFound
    | Forbidden
    | HttpStatus(code: int)
    | TimedOut
    | ConnectionFailed
    | Unknown
    | GaveUp(retries: int)
    | MissingId

  /** One call: success or the failure, the number of requests made and the sleeps in seconds, in order. */
  datatype Download = Download(ok: bool, failure: Option<Failure>, requests: nat, sleeps: seq<nat>)

  const MinPdfSize: nat := 1000

  function Pow2(n: nat): (r: nat)
    ensures r >= 1
  {
    if n == 0 then 1 else 2 * Pow2(n - 1)
  }

  /** `1, 2, 4, …`: the first `n` backoff delays. */
  function Delays(n: nat): (r: seq<nat>)
    ensures |r| == n
    ensures forall i :: 0 <= i < n ==> r[i] == Pow2(i)
  {
    if n == 0 then [] else Delays(n - 1) + [Pow2(n - 1)]
  }

  /** The doubling delays are the only sequence of their length with those entries. */
  lemma DelaysUnique(s: seq<nat>)
    requires forall i :: 0 <= i < |s| ==> s[i] == Pow2(i)
    ensures s == Delays(|s|)
  {
  }

  /** 200 with a PDF content type and a file of at least 1000 bytes. */
  predicate Succeeds(a: Attempt) {
    a.Status? && a.code == 200 && Contains(a.contentType, "application/pdf") && a.size >= MinPdfSize
  }

  /** Another status than 200, 404 and 403, a timeout or a connection error is retried. */
  predicate Retryable(a: Attempt) {
    (a.Status? && a.code != 200 && a.code != 404 && a.code != 403) || a.Timeout? || a.ConnError?
  }

  /** The failure reported when `a` ends the loop. */
  function FailureOf(a: Attempt): Failure
    requires !Succeeds(a)
  {
    match a
    case Status(code, ct, size) =>
      if code == 200 then (if !Contains(ct, "application/pdf") then NotPdf(ct) else TooSmall(size))
      else if code == 404 then NotFound
      else if code == 403 then Forbidden
      else HttpStatus(code)
    case Timeout => TimedOut
    case ConnError => ConnectionFailed
    case OtherExc => Unknown
  }

  /** The loop from `attempt` on. */
  function RetryFrom(script: seq<Attempt>, attempt: nat, maxRetries: nat): (r: Download)
    requires attempt < maxRetries <= |script|
    ensures 1 <= r.requests <= maxRetries - attempt
    ensures forall i :: attempt <= i < attempt + r.requests - 1 ==> Retryable(script[i])
    ensures var last := script[attempt + r.requests - 1];
      && (!Retryable(last) || attempt + r.requests == maxRetries)
      && (r.ok <==> Succeeds(last))
      && (r.ok ==> r.failure.None?)
      && (!r.ok ==> r.failure == Some(FailureOf(last)))
    ensures |r.sleeps| == r.requests - 1
    ensures forall i :: 0 <= i < |r.sleeps| ==> r.sleeps[i] == Pow2(attempt + i)
    decreases maxRetries - attempt
  {
    var a := script[attempt];
    if Succeeds(a) then Download(true, None, 1, [])
    else if Retryable(a) && attempt < maxRetries - 1 then
      var rest := RetryFrom(script, attempt + 1, maxRetries);
      Download(rest.ok, rest.failure, rest.requests + 1, [Pow2(attempt)] + rest.sleeps)
    else Download(false, Some(FailureOf(a)), 1, [])
  }

  /**
    `download_with_retry` with `max_retries` attempts scripted; with no
    attempts allowed it gives up without a request.
   */
  function DownloadWithRetry(script: seq<Attempt>, maxRetries: int): (r: Download)
    requires maxRetries <= |script|
    ensures maxRetries <= 0 ==> r == Download(false, Some(GaveUp(maxRetries)), 0, [])
    ensures maxRetries > 0 ==> 1 <= r.requests <= maxRetries
    ensures r.ok ==> r.failure.None? && r.requests > 0 && Succeeds(script[r.requests - 1])
    ensures maxRetries > 0 ==> forall i :: 0 <= i < r.requests - 1 ==> Retryable(script[i])
    ensures maxRetries > 0 ==> var last := script[r.requests - 1];
      && (!Retryable(last) || r.requests == maxRetries)
      && (r.ok <==> Succeeds(last))
      && (!r.ok ==> r.failure == Some(FailureOf(last)))
    ensures r.sleeps == Delays(if r.requests == 0 then 0 else r.requests - 1)
  {
    if maxRetries <= 0 then Download(false, Some(GaveUp(maxRetries)), 0, [])
    else
      var r := RetryFrom(script, 0, maxRetries);
      DelaysUnique(r.sleeps);
      r
  }

  /** 404, 403, a non-PDF answer, a small file and an unknown exception stop at once, without sleeping. */
  lemma StopsAtOnce(script: seq<Attempt>, maxRetries: int)
    requires 0 < maxRetries <= |script|
    requires !Retryable(script[0])
    ensures DownloadWithRetry(script, maxRetries).requests == 1
    ensures DownloadWithRetry(script, maxRetries).sleeps == []
  {
  }

  /** When every attempt is retryable, all `max_retries` are made and no sleep follows the last. */
  lemma ExhaustsRetries(script: seq<Attempt>, maxRetries: int)
    requires 0 < maxRetries <= |script|
    requires forall i :: 0 <= i < maxRetries ==> Retryable(script[i])
    ensures DownloadWithRetry(script, maxRetries).requests == maxRetries
    ensures DownloadWithRetry(script, maxRetries).sleeps == Delays(maxRetries - 1)
    ensures !DownloadWithRetry(script, maxRetries).ok
  {
    var r := DownloadWithRetry(script, maxRetries);
    assert Retryable(script[r.requests - 1]);
  }

  /** With the default three attempts and three timeouts the delays are 1 s and 2 s. */
  lemma DefaultDelays()
    ensures DownloadWithRetry([Timeout, Timeout, Timeout], 3).sleeps == [1, 2]
  {
    ExhaustsRetries([Timeout, Timeout, Timeout], 3);
    assert Delays(2) == [1, 2];
  }

  // ---------------------------------------------------------------------------
  // download_paper and batch_download
  // ---------------------------------------------------------------------------

  /** `DownloadResult`: id and title as read from the dictionary. */
  datatype Result = Result(paperId: Value, title: Value, success: bool, filePath: Option<string>,
                           failure: Option<Failure>, url: Option<string>)

  /**
    What `download_paper` did: raised (an id or title that is not a
    string reaches a string operation), or finished with a result after
    some requests and sleeps.
   */
  datatype PaperRun = Raised | Done(result: Result, requests: nat, sleeps: seq<nat>)

  /**
    `download_paper` with the output directory, the files already on disk
    and the scripted attempts for this paper.
   */
  function DownloadPaper(paper: Dict, dir: string, files: set<string>, script: seq<Attempt>, maxRetries: int): (r: PaperRun)
    requires maxRetries <= |script|
    ensures var id := Get(paper, "arxiv_id", Str(""));
      !Truthy(id) ==> r == Done(Result(id, Get(paper, "title", Str("untitled")), false, None, Some(MissingId), None), 0, [])
    ensures r.Done? ==> (r.result.success <==> r.result.filePath.Some?)
    ensures r.Done? && r.result.success ==> r.result.url.Some? && StartsWith(r.result.url.value, PdfBase)
    ensures r.Done? && r.result.success && r.result.filePath.value in files ==> r.requests == 0
    ensures r.Done? && r.result.filePath.Some? ==> StartsWith(r.result.filePath.value, dir)
    ensures var id := Get(paper, "arxiv_id", Str("")); var title := Get(paper, "title", Str("untitled"));
      r.Raised? <==> Truthy(id) && !(id.Str? && title.Str?)
    ensures r.Done? ==> r.result.paperId == Get(paper, "arxiv_id", Str("")) && r.result.title == Get(paper, "title", Str("untitled"))
  {
    var id := Get(paper, "arxiv_id", Str(""));
    var title := Get(paper, "title", Str("untitled"));
    if !Truthy(id) then Done(Result(id, title, false, None, Some(MissingId), None), 0, [])
    else if !id.Str? || !title.Str? then Raised
    else
      var url := GetPdfUrl(id.s);
      var path := PathJoin(dir, SanitizeFilename(title.s, id.s));
      if path in files then Done(Result(id, title, true, Some(path), None, Some(url)), 0, [])
      else
        var d := DownloadWithRetry(script, maxRetries);
        Done(Result(id, title, d.ok, if d.ok then Some(path) else None, d.failure, Some(url)), d.requests, d.sleeps)
  }

  /**
    With a string id and title: the address is the id's PDF address, the
    path is the sanitised file name in the output directory; an existing
    file is reported without a request, otherwise the result is that of
    `download_with_retry`.
   */
  lemma DownloadPaperFields(paper: Dict, dir: string, files: set<string>, script: seq<Attempt>, maxRetries: int)
    requires maxRetries <= |script|
    requires var id := Get(paper, "arxiv_id", Str("")); Truthy(id) && id.Str?
    requires Get(paper, "title", Str("untitled")).Str?
    ensures var id := Get(paper, "arxiv_id", Str("")).s;
      var path := PathJoin(dir, SanitizeFilename(Get(paper, "title", Str("untitled")).s, id));
      var r := DownloadPaper(paper, dir, files, script, maxRetries);
      var d := DownloadWithRetry(script, maxRetries);
      && r.Done?
      && r.result.url == Some(GetPdfUrl(id))
      && (r.result.filePath.Some? ==> r.result.filePath.value == path)
      && (path in files ==> r.result.success && r.result.failure.None? && r.requests == 0 && r.sleeps == [])
      && (path !in files ==> r.result.success == d.ok && r.result.failure == d.failure
                             && r.requests == d.requests && r.sleeps == d.sleeps)
  {
  }

  /** A file already on disk counts as a success without any request. */
  lemma ExistingFileSkipsDownload(id: string, title: string, dir: string, files: set<string>, script: seq<Attempt>, maxRetries: int)
    requires id != "" && maxRetries <= |script|
    requires PathJoin(dir, SanitizeFilename(title, id)) in files
    ensures var r := DownloadPaper(map["arxiv_id" := Str(id), "title" := Str(title)], dir, files, script, maxRetries);
      r.Done? && r.result.success && r.requests == 0
  {
    var paper := map["arxiv_id" := Str(id), "title" := Str(title)];
    assert Get(paper, "arxiv_id", Str("")) == Str(id);
    assert Get(paper, "title", Str("untitled")) == Str(title);
  }

  /** `DownloadStats` */
  datatype Stats = Stats(total: nat, successful: nat, failed: nat, results: seq<Result>)

  /** A batch: the statistics (None when a paper raised) and the pauses of half a second made between papers. */
  datatype Batch = Batch(stats: Option<Stats>, pauses: nat)

  /** The files on disk after a paper: a successful download adds its path. */
  function After(files: set<string>, run: PaperRun): set<string> {
    if run.Done? && run.result.success && run.result.filePath.Some? then files + {run.result.filePath.value} else files
  }

  /** The number of successful results. */
  function CountOk(rs: seq<Result>): (n: nat)
    ensures n <= |rs|
  {
    if |rs| == 0 then 0 else CountOk(rs[..|rs| - 1]) + (if rs[|rs| - 1].success then 1 else 0)
  }

  /** Appending a result counts it once if it succeeded. */
  lemma CountOkSnoc(rs: seq<Result>, r: Result)
    ensures CountOk(rs + [r]) == CountOk(rs) + (if r.success then 1 else 0)
  {
    assert (rs + [r])[..|rs|] == rs;
  }

  /**
    `download_paper` as the batch calls it, for a given directory and
    retry budget: the papers, the files on disk and the paper's script.
    A script too short for the budget never reaches it (see
    `BatchDownload`'s precondition) and is given as raising.
   */
  function PaperDownloader(dir: string, maxRetries: int): (Dict, set<string>, seq<Attempt>) -> PaperRun {
    (paper: Dict, files: set<string>, script: seq<Attempt>) =>
      if maxRetries <= |script| then DownloadPaper(paper, dir, files, script, maxRetries) else Raised
  }

  /**
    `batch_download` from paper `i` on, with the counters so far, for any
    per-paper download `dl`; every paper has its own script of attempts.
   */
  function BatchFrom(dl: (Dict, set<string>, seq<Attempt>) -> PaperRun, papers: seq<Dict>, scripts: seq<seq<Attempt>>,
                     i: nat, files: set<string>, acc: seq<Result>, ok: nat, bad: nat): (r: Option<Stats>)
    requires |scripts| == |papers| && i <= |papers|
    requires ok + bad == |acc| == i
    requires ok == CountOk(acc)
    ensures r.Some? ==> r.value.total == |papers| && |r.value.results| == |papers|
    ensures r.Some? ==> r.value.successful + r.value.failed == r.value.total
    ensures r.Some? ==> r.value.results[..i] == acc
    ensures r.Some? ==> r.value.successful == CountOk(r.value.results)
    decreases |papers| - i
  {
    if i == |papers| then
      Some(Stats(|papers|, ok, bad, acc))
    else
      var run := dl(papers[i], files, scripts[i]);
      match run
      case Raised => None
      case Done(res, _, _) =>
        assert (acc + [res])[..|acc|] == acc;
        BatchFrom(dl, papers, scripts, i + 1, After(files, run), acc + [res],
                  if res.success then ok + 1 else ok, if res.success then bad else bad + 1)
  }

  /** The files on disk when paper `k` is reached, starting from paper `i` with `files`. */
  function FilesAt(dl: (Dict, set<string>, seq<Attempt>) -> PaperRun, papers: seq<Dict>, scripts: seq<seq<Attempt>>,
                   i: nat, files: set<string>, k: nat): set<string>
    requires |scripts| == |papers| && i <= k <= |papers|
    decreases k - i
  {
    if i == k then files else FilesAt(dl, papers, scripts, i + 1, After(files, dl(papers[i], files, scripts[i])), k)
  }

  /** The index of the first paper from `i` on that raises, or the number of papers when none does. */
  function Completed(dl: (Dict, set<string>, seq<Attempt>) -> PaperRun, papers: seq<Dict>, scripts: seq<seq<Attempt>>,
                     i: nat, files: set<string>): (n: nat)
    requires |scripts| == |papers| && i <= |papers|
    ensures i <= n <= |papers|
    decreases |papers| - i
  {
    if i == |papers| then i
    else
      var run := dl(papers[i], files, scripts[i]);
      if run.Raised? then i else Completed(dl, papers, scripts, i + 1, After(files, run))
  }

  /** The papers before the first raise finish; the one it names raises. */
  lemma {:induction false} CompletedRaises(dl: (Dict, set<string>, seq<Attempt>) -> PaperRun, papers: seq<Dict>,
                                           scripts: seq<seq<Attempt>>, i: nat, files: set<string>, k: nat)
    requires |scripts| == |papers| && i <= |papers| && i <= k <= Completed(dl, papers, scripts, i, files)
    ensures k < |papers| ==> var run := dl(papers[k], FilesAt(dl, papers, scripts, i, files, k), scripts[k]);
      (k < Completed(dl, papers, scripts, i, files) <==> run.Done?)
    decreases k - i
  {
    if i < k {
      var run := dl(papers[i], files, scripts[i]);
      CompletedRaises(dl, papers, scripts, i + 1, After(files, run), k);
    }
  }

  /** The batch is aborted exactly when some paper raises. */
  lemma {:induction false} BatchFromAborts(dl: (Dict, set<string>, seq<Attempt>) -> PaperRun, papers: seq<Dict>, scripts: seq<seq<Attempt>>,
                                           i: nat, files: set<string>, acc: seq<Result>, ok: nat, bad: nat)
    requires |scripts| == |papers| && i <= |papers|
    requires ok + bad == |acc| == i && ok == CountOk(acc)
    ensures BatchFrom(dl, papers, scripts, i, files, acc, ok, bad).None? <==> Completed(dl, papers, scripts, i, files) < |papers|
    decreases |papers| - i
  {
    if i < |papers| {
      var run := dl(papers[i], files, scripts[i]);
      BatchStep(dl, papers, scripts, i, files, acc, ok, bad);
      if run.Done? {
        CountOkSnoc(acc, run.result);
        BatchFromAborts(dl, papers, scripts, i + 1, After(files, run), acc + [run.result],
                        if run.result.success then ok + 1 else ok, if run.result.success then bad else bad + 1);
      }
    }
  }

  /** The `k`-th result is what downloading paper `k` gave, with the files the papers before it left on disk. */
  lemma {:induction false} BatchFromResults(dl: (Dict, set<string>, seq<Attempt>) -> PaperRun, papers: seq<Dict>, scripts: seq<seq<Attempt>>,
                                            i: nat, files: set<string>, acc: seq<Result>, ok: nat, bad: nat, k: nat)
    requires |scripts| == |papers| && i <= k < |papers|
    requires ok + bad == |acc| == i && ok == CountOk(acc)
    requires BatchFrom(dl, papers, scripts, i, files, acc, ok, bad).Some?
    ensures var run := dl(papers[k], FilesAt(dl, papers, scripts, i, files, k), scripts[k]);
      run.Done? && BatchFrom(dl, papers, scripts, i, files, acc, ok, bad).value.results[k] == run.result
    decreases k - i
  {
    var run := dl(papers[i], files, scripts[i]);
    BatchStep(dl, papers, scripts, i, files, acc, ok, bad);
    CountOkSnoc(acc, run.result);
    var acc', ok', bad' := acc + [run.result], if run.result.success then ok + 1 else ok, if run.result.success then bad else bad + 1;
    var rest := BatchFrom(dl, papers, scripts, i + 1, After(files, run), acc', ok', bad');
    if k == i {
      assert rest.value.results[..i + 1] == acc';
      assert rest.value.results[i] == acc'[i];
    } else {
      BatchFromResults(dl, papers, scripts, i + 1, After(files, run), acc', ok', bad', k);
    }
  }

  /**
    `batch_download`: one result per paper, in order; the successes and
    failures add up to the total. A half-second pause follows every paper
    but the last, so a batch aborted by a raising paper has paused once
    per paper before it.
   */
  function BatchDownload(papers: seq<Dict>, scripts: seq<seq<Attempt>>, dir: string, files: set<string>, maxRetries: int): (r: Batch)
    requires |scripts| == |papers|
    requires forall k :: 0 <= k < |scripts| ==> maxRetries <= |scripts[k]|
    ensures r.stats.Some? ==> r.stats.value.total == |papers| == |r.stats.value.results|
    ensures r.stats.Some? ==> r.stats.value.successful + r.stats.value.failed == |papers|
    ensures r.stats.Some? ==> r.stats.value.successful == CountOk(r.stats.value.results)
    ensures r.stats.Some? ==> r.pauses == (if |papers| == 0 then 0 else |papers| - 1)
    ensures r.stats.None? ==> r.pauses == Completed(PaperDownloader(dir, maxRetries), papers, scripts, 0, files) < |papers|
  {
    var dl := PaperDownloader(dir, maxRetries);
    var s := BatchFrom(dl, papers, scripts, 0, files, [], 0, 0);
    BatchFromAborts(dl, papers, scripts, 0, files, [], 0, 0);
    var n := Completed(dl, papers, scripts, 0, files);
    Batch(s, if n < |papers| then n else if |papers| == 0 then 0 else |papers| - 1)
  }

  /** Each result of a finished batch is the download of the paper at the same position. */
  lemma BatchDownloadResults(papers: seq<Dict>, scripts: seq<seq<Attempt>>, dir: string, files: set<string>, maxRetries: int, k: nat)
    requires |scripts| == |papers|
    requires forall j :: 0 <= j < |scripts| ==> maxRetries <= |scripts[j]|
    requires BatchDownload(papers, scripts, dir, files, maxRetries).stats.Some? && k < |papers|
    ensures var dl := PaperDownloader(dir, maxRetries);
      var run := DownloadPaper(papers[k], dir, FilesAt(dl, papers, scripts, 0, files, k), scripts[k], maxRetries);
      run.Done? && BatchDownload(papers, scripts, dir, files, maxRetries).stats.value.results[k] == run.result
  {
    BatchFromResults(PaperDownloader(dir, maxRetries), papers, scripts, 0, files, [], 0, 0, k);
  }

  /** One step of `BatchFrom`: a paper that raises aborts the batch, otherwise its result is recorded. */
  lemma BatchStep(dl: (Dict, set<string>, seq<Attempt>) -> PaperRun, papers: seq<Dict>, scripts: seq<seq<Attempt>>,
                  i: nat, files: set<string>, acc: seq<Result>, ok: nat, bad: nat)
    requires |scripts| == |papers| && i < |papers|
    requires ok + bad == |acc| == i && ok == CountOk(acc)
    ensures var run := dl(papers[i], files, scripts[i]);
      && (run.Raised? ==> BatchFrom(dl, papers, scripts, i, files, acc, ok, bad).None?)
      && (run.Done? ==>
            BatchFrom(dl, papers, scripts, i, files, acc, ok, bad)
            == BatchFrom(dl, papers, scripts, i + 1, After(files, run), acc + [run.result],
                         if run.result.success then ok + 1 else ok, if run.result.success then bad else bad + 1))
      && (run.Raised? ==> Completed(dl, papers, scripts, i, files) == i)
      && (run.Done? ==> Completed(dl, papers, scripts, i + 1, After(files, run)) == Completed(dl, papers, scripts, i, files))
  {
    var run := dl(papers[i], files, scripts[i]);
    if run.Done? {
      CountOkSnoc(acc, run.result);
    }
  }

  /**
    The loop of `batch_download`, with its running counters, for any
    per-paper download: it agrees with `BatchFrom` from the first paper,
    and pauses once between consecutive papers. `BatchDownload` is its
    instance with `PaperDownloader`.
   */
  method BatchLoop(dl: (Dict, set<string>, seq<Attempt>) -> PaperRun, papers: seq<Dict>, scripts: seq<seq<Attempt>>, files0: set<string>)
    returns (raised: bool, results: seq<Result>, successful: nat, failed: nat, pauses: nat)
    requires |scripts| == |papers|
    ensures var b := BatchFrom(dl, papers, scripts, 0, files0, [], 0, 0);
      && (raised <==> b.None?)
      && (!raised ==> b.value == Stats(|papers|, successful, failed, results))
      && (!raised ==> pauses == (if |papers| == 0 then 0 else |papers| - 1))
      && (raised ==> pauses == |results| == Completed(dl, papers, scripts, 0, files0))
  {
    var files := files0;
    results := [];
    successful, failed, pauses := 0, 0, 0;
    var i := 0;
    while i < |papers|
      invariant 0 <= i <= |papers|
      invariant successful + failed == |results| == i
      invariant successful == CountOk(results)
      invariant pauses == (if 0 < i == |papers| then i - 1 else i)
      invariant BatchFrom(dl, papers, scripts, i, files, results, successful, failed)
             == BatchFrom(dl, papers, scripts, 0, files0, [], 0, 0)
      invariant Completed(dl, papers, scripts, i, files) == Completed(dl, papers, scripts, 0, files0)
    {
      var run := dl(papers[i], files, scripts[i]);
      BatchStep(dl, papers, scripts, i, files, results, successful, failed);
      if run.Raised? {
        assert Completed(dl, papers, scripts, i, files) == i;
        return true, results, successful, failed, pauses;
      }
      var res := run.result;
      CountOkSnoc(results, res);
      ghost var before := BatchFrom(dl, papers, scripts, i, files, results, successful, failed);
      results, files := results + [res], After(files, run);
      successful, failed := if res.success then successful + 1 else successful, if res.success then failed else failed + 1;
      assert BatchFrom(dl, papers, scripts, i + 1, files, results, successful, failed) == before;
      pauses := if i + 1 < |papers| then pauses + 1 else pauses;
      i := i + 1;
    }
    assert BatchFrom(dl, papers, scripts, i, files, results, successful, failed) == Some(Stats(|papers|, successful, failed, results));
    raised := false;
  }
}
