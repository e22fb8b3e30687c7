/**
  The SQLite library database as maps: paper rows by id with the
  `UNIQUE(source, source_id)` index kept alongside, tags by name, and the
  paper-tag pairs. SQL text, connections and `ORDER BY` are not modelled;
  the timestamp `add_paper` stamps is a parameter.
 */
module Database {
  import opened Wrappers
  import opened Text
  import opened Values
  import Papers

  /** The content of a TEXT column. */
  datatype Cell = NullCell | TextCell(text: string)

  /** The range of SQLite's INTEGER, a signed 64-bit value. */
  const MinInteger: int := -0x8000_0000_0000_0000
  const MaxInteger: int := 0x7FFF_FFFF_FFFF_FFFF

  /** A value the driver accepts as a parameter: anything but a list or an integer outside 64 bits. */
  predicate Bindable(v: Value) {
    !v.Strs? && (v.Num? ==> MinInteger <= v.n <= MaxInteger)
  }

  /**
    What a bound parameter becomes in a TEXT column: None stores NULL,
    numbers and booleans are stored as their text. None when the driver
    refuses to bind the value: a list, or an integer outside 64 bits,
    for which sqlite3 raises OverflowError.
   */
  function Bind(v: Value): (r: Option<Cell>)
    ensures r.Some? <==> Bindable(v)
    ensures v.Nil? ==> r == Some(NullCell)
    ensures v.Str? ==> r == Some(TextCell(v.s))
    ensures v.Num? && r.Some? ==> r == Some(TextCell(IntToStr(v.n)))
    ensures v.Flag? ==> r == Some(TextCell(if v.b then "1" else "0"))
  {
    match v
    case Nil => Some(NullCell)
    case Str(s) => Some(TextCell(s))
    case Num(n) => if MinInteger <= n <= MaxInteger then Some(TextCell(IntToStr(n))) else None
    case Flag(b) => Some(TextCell(if b then "1" else "0"))
    case Strs(_) => None
  }

  /** A row of `papers`, without its id. */
  datatype Row = Row(
    source: string,
    sourceId: string,
    title: string,
    authors: Value,      // stored as JSON text and read back with json.loads
    summary: Cell,
    pdfUrl: Cell,
    published: Cell,
    added: string,
    favorite: bool,
    read: bool,
    aiSummary: Cell)

  type Key = (string, string)

  function KeyOf(row: Row): Key {
    (row.source, row.sourceId)
  }

  datatype Tag = Tag(id: int, color: string)

  datatype Db = Db(
    papers: map<int, Row>,
    index: map<Key, int>,    // the UNIQUE(source, source_id) index
    nextId: int,             // the next AUTOINCREMENT paper id
    tags: map<string, Tag>,  // `name` is UNIQUE
    nextTagId: int,
    paperTags: seq<(int, int)>)

  /** A freshly created database. */
  const Empty: Db := Db(map[], map[], 1, map[], 1, [])

  /**
    The schema's guarantees: ids are positive and below the counters, the
    index maps each key to the one row carrying it, tag ids are distinct,
    and no (paper, tag) pair is recorded twice.
   */
  predicate Valid(db: Db) {
    && db.nextId >= 1 && db.nextTagId >= 1
    && (forall id :: id in db.papers ==> 1 <= id < db.nextId)
    && (forall id :: id in db.papers ==> KeyOf(db.papers[id]) in db.index && db.index[KeyOf(db.papers[id])] == id)
    && (forall k :: k in db.index ==> db.index[k] in db.papers && KeyOf(db.papers[db.index[k]]) == k)
    && (forall n :: n in db.tags ==> 1 <= db.tags[n].id < db.nextTagId)
    && (forall n, m :: n in db.tags && m in db.tags && n != m ==> db.tags[n].id != db.tags[m].id)
    && (forall i, j :: 0 <= i < j < |db.paperTags| ==> db.paperTags[i] != db.paperTags[j])
  }

  lemma EmptyValid()
    ensures Valid(Empty)
  {
  }

  /** At most one row per `(source, source_id)`. */
  lemma KeysUnique(db: Db, a: int, b: int)
    requires Valid(db) && a in db.papers && b in db.papers && a != b
    ensures KeyOf(db.papers[a]) != KeyOf(db.papers[b])
  {
  }

  // ---------------------------------------------------------------------------
  // add_paper
  // ---------------------------------------------------------------------------

  /** The values of one `INSERT`, as bound. */
  datatype Insert = Insert(
    source: Cell, sourceId: Cell, title: Cell, authors: Value,
    summary: Cell, pdfUrl: Cell, published: Cell, aiSummary: Cell)

  /** Binding the parameters of the upsert; None when one of them cannot be bound. */
  function Params(paper: Dict, sid: Value): (r: Option<Insert>)
    ensures r.Some? <==> (
      && Bindable(Get(paper, "source", Str("arxiv"))) && Bindable(sid) && Bindable(Get(paper, "title", Nil))
      && Bindable(Get(paper, "summary", Nil)) && Bindable(Get(paper, "pdf_url", Nil))
      && Bindable(Get(paper, "published", Nil)) && Bindable(Get(paper, "ai_summary", Nil)))
    ensures r.Some? ==> (
      && Some(r.value.source) == Bind(Get(paper, "source", Str("arxiv")))
      && Some(r.value.sourceId) == Bind(sid)
      && Some(r.value.title) == Bind(Get(paper, "title", Nil))
      && r.value.authors == Get(paper, "authors", Strs([]))
      && Some(r.value.summary) == Bind(Get(paper, "summary", Nil))
      && Some(r.value.pdfUrl) == Bind(Get(paper, "pdf_url", Nil))
      && Some(r.value.published) == Bind(Get(paper, "published", Nil))
      && Some(r.value.aiSummary) == Bind(Get(paper, "ai_summary", Nil)))
  {
    var cells := [Bind(Get(paper, "source", Str("arxiv"))), Bind(sid), Bind(Get(paper, "title", Nil)),
                  Bind(Get(paper, "summary", Nil)), Bind(Get(paper, "pdf_url", Nil)),
                  Bind(Get(paper, "published", Nil)), Bind(Get(paper, "ai_summary", Nil))];
    var bound := Collect(cells);
    if bound.None? then None
    else
      var c := bound.value;
      Some(Insert(c[0], c[1], c[2], Get(paper, "authors", Strs([])), c[3], c[4], c[5], c[6]))
  }

  /** The insert passes the NOT NULL constraints on `source`, `source_id` and `title`. */
  predicate Storable(ins: Insert) {
    ins.source.TextCell? && ins.sourceId.TextCell? && ins.title.TextCell?
  }

  function InsertKey(ins: Insert): Key
    requires Storable(ins)
  {
    (ins.source.text, ins.sourceId.text)
  }

  /** Rewriting a row in place, under the same key, keeps the schema's guarantees. */
  lemma UpdateKeepsValid(db: Db, id: int, row: Row)
    requires Valid(db) && id in db.papers && KeyOf(row) == KeyOf(db.papers[id])
    ensures Valid(db.(papers := db.papers[id := row]))
  {
  }

  /** Inserting a row with a new key under the next id keeps the schema's guarantees. */
  lemma InsertKeepsValid(db: Db, row: Row)
    requires Valid(db) && KeyOf(row) !in db.index
    ensures Valid(db.(papers := db.papers[db.nextId := row], index := db.index[KeyOf(row) := db.nextId], nextId := db.nextId + 1))
  {
    assert db.nextId !in db.papers;
  }

  /** `add_paper`'s result: the id (-1 on any error) and the database afterwards. */
  datatype Added = Added(id: int, db: Db)

  /** `ai_summary=COALESCE(excluded.ai_summary, papers.ai_summary)` */
  function Coalesce(given: Cell, kept: Cell): (r: Cell)
    ensures given.TextCell? ==> r == given
    ensures given.NullCell? ==> r == kept
  {
    if given.TextCell? then given else kept
  }

  /**
    The `INSERT ... ON CONFLICT(source, source_id) DO UPDATE` of
    `add_paper`, with the `source_id` value already computed. A row with
    the same key keeps its id, publication date, added date, favourite
    and read flags, takes the new title, authors, summary and PDF address,
    and keeps its AI summary unless a new one is given. A new key gets a
    fresh id, the given timestamp and both flags cleared. A parameter the
    driver refuses or a NULL in a NOT NULL column gives -1 and no change.
   */
  function Upsert(db: Db, paper: Dict, sid: Value, now: string): (r: Added)
    requires Valid(db)
    ensures Valid(r.db)
    ensures r.id == -1 <==> Params(paper, sid).None? || !Storable(Params(paper, sid).value)
    ensures r.id == -1 ==> r.db == db
    ensures r.db.tags == db.tags && r.db.paperTags == db.paperTags
    ensures r.id != -1 ==> r.id in r.db.papers && KeyOf(r.db.papers[r.id]) == InsertKey(Params(paper, sid).value)
    ensures forall id :: id in db.papers && id != r.id ==> id in r.db.papers && r.db.papers[id] == db.papers[id]
    ensures r.id != -1 ==> var ins, row := Params(paper, sid).value, r.db.papers[r.id];
      && row.title == ins.title.text && row.authors == ins.authors
      && row.summary == ins.summary && row.pdfUrl == ins.pdfUrl
    ensures r.id != -1 && InsertKey(Params(paper, sid).value) in db.index ==>
      && r.id == db.index[InsertKey(Params(paper, sid).value)]
      && r.db.papers.Keys == db.papers.Keys
      && r.id in db.papers && r.id in r.db.papers
      && var prev, row := db.papers[r.id], r.db.papers[r.id];
      && row.published == prev.published && row.added == prev.added
      && row.favorite == prev.favorite && row.read == prev.read
      && row.aiSummary == Coalesce(Params(paper, sid).value.aiSummary, prev.aiSummary)
    ensures r.id != -1 && InsertKey(Params(paper, sid).value) !in db.index ==>
      var ins, row := Params(paper, sid).value, r.db.papers[r.id];
      && r.id !in db.papers
      && r.db.papers.Keys == db.papers.Keys + {r.id}
      && row.published == ins.published && row.added == now
      && !row.favorite && !row.read && row.aiSummary == ins.aiSummary
  {
    var ps := Params(paper, sid);
    if ps.None? || !Storable(ps.value) then Added(-1, db)
    else
      var ins := ps.value;
      var key := InsertKey(ins);
      if key in db.index then
        var id := db.index[key];
        var prev := db.papers[id];
        var row := prev.(title := ins.title.text, authors := ins.authors, summary := ins.summary,
                         pdfUrl := ins.pdfUrl, aiSummary := Coalesce(ins.aiSummary, prev.aiSummary));
        var db' := db.(papers := db.papers[id := row]);
        UpdateKeepsValid(db, id, row);
        Added(id, db')
      else
        var id := db.nextId;
        var row := Row(key.0, key.1, ins.title.text, ins.authors, ins.summary, ins.pdfUrl,
                       ins.published, now, false, false, ins.aiSummary);
        var db' := db.(papers := db.papers[id := row], index := db.index[key := id], nextId := id + 1);
        InsertKeepsValid(db, row);
        Added(id, db')
  }

  /** `paper_data.get('arxiv_id') or paper_data.get('id')`, the key `add_paper` uses as written. */
  function SourceIdAsWritten(paper: Dict): (r: Value)
    ensures Truthy(Get(paper, "arxiv_id", Nil)) ==> r == paper["arxiv_id"]
    ensures !Truthy(Get(paper, "arxiv_id", Nil)) ==> r == Get(paper, "id", Nil)
  {
    Or(Get(paper, "arxiv_id", Nil), Get(paper, "id", Nil))
  }

  /**
    The key with the paper's own `source_id` as the last fallback, which
    is what both `Paper.to_dict` and the legacy Semantic Scholar crawler
    provide.
   */
  function SourceId(paper: Dict): (r: Value)
    ensures Truthy(Get(paper, "arxiv_id", Nil)) ==> r == paper["arxiv_id"]
    ensures !Truthy(Get(paper, "arxiv_id", Nil)) && Truthy(Get(paper, "id", Nil)) ==> r == paper["id"]
    ensures !Truthy(Get(paper, "arxiv_id", Nil)) && !Truthy(Get(paper, "id", Nil)) ==> r == Get(paper, "source_id", Nil)
  {
    Or(Get(paper, "arxiv_id", Nil), Or(Get(paper, "id", Nil), Get(paper, "source_id", Nil)))
  }

  /** `add_paper` as written: the key falls back from `arxiv_id` to `id` only. */
  function AddPaperAsWritten(db: Db, paper: Dict, now: string): (r: Added)
    requires Valid(db)
    ensures Valid(r.db)
    ensures r.id == -1 <==> Params(paper, SourceIdAsWritten(paper)).None? || !Storable(Params(paper, SourceIdAsWritten(paper)).value)
  {
    Upsert(db, paper, SourceIdAsWritten(paper), now)
  }

  /** `add_paper` with the corrected key, falling back to `source_id`. */
  function AddPaper(db: Db, paper: Dict, now: string): (r: Added)
    requires Valid(db)
    ensures Valid(r.db)
    ensures r.id == -1 <==> Params(paper, SourceId(paper)).None? || !Storable(Params(paper, SourceId(paper)).value)
    ensures r.id != -1 ==> r.id in r.db.papers
  {
    Upsert(db, paper, SourceId(paper), now)
  }

  /** A field holding an integer beyond 64 bits makes the driver raise, and the paper is not stored. */
  lemma OverflowNotStored(db: Db, paper: Dict, now: string, key: string)
    requires Valid(db)
    requires key in {"title", "summary", "pdf_url", "published", "ai_summary"}
    requires key in paper && paper[key].Num? && paper[key].n > MaxInteger
    ensures AddPaper(db, paper, now) == Added(-1, db)
  {
    assert !Bindable(Get(paper, key, Nil));
  }

  /**
    As written, no paper from a source other than arXiv can be stored:
    its dictionary has no `arxiv_id` and no `id`, so `source_id` is bound
    to NULL and the NOT NULL constraint rejects the row.
   */
  lemma AsWrittenRejectsNonArxiv(db: Db, p: Papers.Paper, now: string)
    requires Valid(db) && p.source != "arxiv"
    ensures AddPaperAsWritten(db, Papers.ToDict(p), now) == Added(-1, db)
  {
    var d := Papers.ToDict(p);
    Papers.ToDictStoredFields(p);
    assert SourceIdAsWritten(d) == Nil;
  }

  /** A Semantic Scholar result from the legacy crawler is rejected the same way. */
  lemma AsWrittenRejectsLegacyResult(db: Db, paper: Dict, now: string)
    requires Valid(db) && "arxiv_id" !in paper && "id" !in paper
    ensures AddPaperAsWritten(db, paper, now) == Added(-1, db)
  {
  }

  /** With the corrected key every `Paper.to_dict` is stored, under its own source and id. */
  lemma CorrectedStoresEveryPaper(db: Db, p: Papers.Paper, now: string)
    requires Valid(db)
    ensures var r := AddPaper(db, Papers.ToDict(p), now);
      r.id != -1 && KeyOf(r.db.papers[r.id]) == (p.source, p.sourceId)
  {
    ToDictParams(p);
  }

  /** Adding the same paper again returns the same id and adds no row. */
  lemma AddPaperTwice(db: Db, paper: Dict, now: string, later: string)
    requires Valid(db)
    requires AddPaper(db, paper, now).id != -1
    ensures var first := AddPaper(db, paper, now);
      var second := AddPaper(first.db, paper, later);
      && second.id == first.id
      && second.db.papers.Keys == first.db.papers.Keys
      && second.db.papers[second.id].added == first.db.papers[first.id].added
  {
    var first := AddPaper(db, paper, now);
    var key := InsertKey(Params(paper, SourceId(paper)).value);
    assert key in first.db.index;
  }

  // ---------------------------------------------------------------------------
  // Favourite flag, tags, listing
  // ---------------------------------------------------------------------------

  /** `toggle_favorite`'s result: the new state and the database afterwards. */
  datatype Toggled = Toggled(favorite: bool, db: Db)

  /**
    `toggle_favorite`: the flag of an existing paper is flipped and the
    new value returned; an unknown id returns False and changes nothing.
   */
  function ToggleFavorite(db: Db, id: int): (r: Toggled)
    ensures id !in db.papers ==> r == Toggled(false, db)
    ensures id in db.papers ==> r.favorite == !db.papers[id].favorite
    ensures id in db.papers ==> r.db.papers == db.papers[id := db.papers[id].(favorite := r.favorite)]
    ensures r.db.index == db.index && r.db.tags == db.tags && r.db.paperTags == db.paperTags
    ensures Valid(db) ==> Valid(r.db)
  {
    if id !in db.papers then Toggled(false, db)
    else
      var row := db.papers[id];
      var flipped := row.(favorite := !row.favorite);
      assert KeyOf(flipped) == KeyOf(row);
      Toggled(flipped.favorite, db.(papers := db.papers[id := flipped]))
  }

  /** Toggling twice restores the database. */
  lemma ToggleTwice(db: Db, id: int)
    ensures ToggleFavorite(ToggleFavorite(db, id).db, id).db == db
  {
    if id in db.papers {
      var row := db.papers[id];
      assert row.(favorite := !row.favorite).(favorite := row.favorite) == row;
      assert db.papers[id := row] == db.papers;
    }
  }

  /** `add_tag`'s result: the tag's id and the database afterwards. */
  datatype Tagged = Tagged(id: int, db: Db)

  /**
    `add_tag`: a new name gets a fresh id and the given colour; a known
    name returns its existing id and changes nothing (the colour is not
    updated).
   */
  function AddTag(db: Db, name: string, color: string): (r: Tagged)
    requires Valid(db)
    ensures Valid(r.db)
    ensures name in r.db.tags && r.db.tags[name].id == r.id
    ensures name in db.tags ==> r == Tagged(db.tags[name].id, db)
    ensures name !in db.tags ==> r.db.tags == db.tags[name := Tag(r.id, color)]
    ensures name !in db.tags ==> forall n :: n in db.tags ==> db.tags[n].id != r.id
    ensures r.db.papers == db.papers && r.db.paperTags == db.paperTags
  {
    if name in db.tags then Tagged(db.tags[name].id, db)
    else
      var id := db.nextTagId;
      Tagged(id, db.(tags := db.tags[name := Tag(id, color)], nextTagId := id + 1))
  }

  /** `add_tag` is idempotent by name: a second call returns the same id and changes nothing. */
  lemma AddTagIdempotent(db: Db, name: string, color: string, color2: string)
    requires Valid(db)
    ensures var first := AddTag(db, name, color);
      AddTag(first.db, name, color2) == first
  {
  }

  /**
    `tag_paper`: the tag is created if needed, then the pair is recorded
    unless it already is (the primary key rejects a duplicate, which is
    ignored). Foreign keys are not enforced, so the paper need not exist.
   */
  function TagPaper(db: Db, paperId: int, name: string): (r: Db)
    requires Valid(db)
    ensures Valid(r)
    ensures name in r.tags && (paperId, r.tags[name].id) in r.paperTags
    ensures r.papers == db.papers
    ensures forall p :: p in db.paperTags ==> p in r.paperTags
    ensures |r.paperTags| <= |db.paperTags| + 1
  {
    var t := AddTag(db, name, "blue");
    var pair := (paperId, t.id);
    if pair in t.db.paperTags then t.db
    else t.db.(paperTags := t.db.paperTags + [pair])
  }

  /** Tagging a paper twice with the same name records the pair once. */
  lemma TagPaperTwice(db: Db, paperId: int, name: string)
    requires Valid(db)
    ensures TagPaper(TagPaper(db, paperId, name), paperId, name) == TagPaper(db, paperId, name)
  {
  }

  /**
    `get_all_papers`: every row, or only the favourites when filtering.
    The `ORDER BY added_date DESC` ordering is not modelled: the result
    is the selected rows by id.
   */
  function AllPapers(db: Db, filterFavorite: bool): (r: map<int, Row>)
    ensures forall id :: id in r <==> id in db.papers && (!filterFavorite || db.papers[id].favorite)
    ensures forall id :: id in r ==> r[id] == db.papers[id]
  {
    map id | id in db.papers && (!filterFavorite || db.papers[id].favorite) :: db.papers[id]
  }

  /** A paper just toggled on appears in the favourites listing, and toggled off it does not. */
  lemma ToggleShowsInFavorites(db: Db, id: int)
    requires id in db.papers
    ensures var t := ToggleFavorite(db, id);
      id in AllPapers(t.db, true) <==> t.favorite
  {
  }

  // ---------------------------------------------------------------------------
  // Reading rows back
  // ---------------------------------------------------------------------------

  function CellValue(c: Cell): Value {
    match c
    case NullCell => Nil
    case TextCell(s) => Str(s)
  }

  /** The keys of `_row_to_dict`: the table's columns. */
  const RowKeys: set<string> := {
    "id", "source", "source_id", "title", "authors", "summary", "pdf_url",
    "published", "added_date", "is_favorite", "read_status", "ai_summary"
  }

  /** The value `_row_to_dict` gives for column `k`. */
  function Column(id: int, row: Row, k: string): Value {
    if k == "id" then Num(id)
    else if k == "source" then Str(row.source)
    else if k == "source_id" then Str(row.sourceId)
    else if k == "title" then Str(row.title)
    else if k == "authors" then row.authors
    else if k == "summary" then CellValue(row.summary)
    else if k == "pdf_url" then CellValue(row.pdfUrl)
    else if k == "published" then CellValue(row.published)
    else if k == "added_date" then Str(row.added)
    else if k == "is_favorite" then Flag(row.favorite)
    else if k == "read_status" then Flag(row.read)
    else CellValue(row.aiSummary)
  }

  /** `_row_to_dict`: the columns under their dictionary names, flags as booleans. */
  function RowToDict(id: int, row: Row): (r: Dict)
    ensures r.Keys == RowKeys
    ensures r["is_favorite"] == Flag(row.favorite) && r["read_status"] == Flag(row.read)
    ensures r["title"] == Str(row.title) && r["source_id"] == Str(row.sourceId) && r["source"] == Str(row.source)
    ensures r["authors"] == row.authors && r["summary"] == CellValue(row.summary) && r["pdf_url"] == CellValue(row.pdfUrl)
    ensures r["id"] == Num(id) && r["published"] == CellValue(row.published)
    ensures r["added_date"] == Str(row.added) && r["ai_summary"] == CellValue(row.aiSummary)
  {
    map k | k in RowKeys :: Column(id, row, k)
  }

  /** The bound values of the upsert for a `Paper.to_dict`, under the corrected key. */
  lemma ToDictParams(p: Papers.Paper)
    ensures var d := Papers.ToDict(p);
      && SourceId(d) == Str(p.sourceId)
      && Params(d, SourceId(d)).Some?
      && var ins := Params(d, SourceId(d)).value;
      && ins.source == TextCell(p.source) && ins.sourceId == TextCell(p.sourceId)
      && ins.title == TextCell(p.title) && ins.authors == Strs(p.authors)
      && ins.summary == TextCell(p.abstractText) && CellValue(ins.pdfUrl) == FromOpt(p.pdfUrl)
  {
    Papers.ToDictStoredFields(p);
  }

  /** A stored paper reads back with the values the upsert bound. */
  lemma StoredRowReadsBack(db: Db, paper: Dict, sid: Value, now: string)
    requires Valid(db) && Upsert(db, paper, sid, now).id != -1
    ensures var r, ins := Upsert(db, paper, sid, now), Params(paper, sid).value;
      var d := RowToDict(r.id, r.db.papers[r.id]);
      && d["source"] == CellValue(ins.source) && d["source_id"] == CellValue(ins.sourceId)
      && d["title"] == CellValue(ins.title) && d["authors"] == ins.authors
      && d["summary"] == CellValue(ins.summary) && d["pdf_url"] == CellValue(ins.pdfUrl)
  {
  }

  /**
    A paper stored from `Paper.to_dict` reads back with its source, id,
    title, authors, summary and PDF address as they were.
   */
  lemma StoredPaperReadsBack(db: Db, p: Papers.Paper, now: string)
    requires Valid(db)
    ensures var r := AddPaper(db, Papers.ToDict(p), now);
      && r.id in r.db.papers
      && var d := RowToDict(r.id, r.db.papers[r.id]);
      && d["title"] == Str(p.title) && d["authors"] == Strs(p.authors)
      && d["summary"] == Str(p.abstractText) && d["pdf_url"] == FromOpt(p.pdfUrl)
      && d["source"] == Str(p.source) && d["source_id"] == Str(p.sourceId)
  {
    ToDictParams(p);
    var d := Papers.ToDict(p);
    assert AddPaper(db, d, now) == Upsert(db, d, SourceId(d), now);
    StoredRowReadsBack(db, d, SourceId(d), now);
  }
}
