/**
  The favourites list: entries kept in the order they were added, each
  carrying the paper's id. Adding refuses an id already present; removing
  deletes the first entry with the id. The list is what the metadata file
  holds under `favorites`; reading and writing that file, copying the PDF
  and writing the per-paper JSON are not modelled, and the clock reading
  for `added_date` is a parameter.
 */
module Favorites {
  import opened Wrappers
  import opened Text
  import opened Values

  /** `paper.get('source_id') or paper.get('arxiv_id', '')` */
  function PaperId(paper: Dict): Value {
    Or(Get(paper, "source_id", Nil), Get(paper, "arxiv_id", Str("")))
  }

  /** `fav.get('id')` */
  function IdOf(fav: Dict): Value {
    Get(fav, "id", Nil)
  }

  /** No two entries share an id. */
  predicate DistinctIds(favs: seq<Dict>) {
    forall i, j :: 0 <= i < j < |favs| ==> IdOf(favs[i]) != IdOf(favs[j])
  }

  /** The position of the first entry with the id, if any. */
  function FirstIndex(favs: seq<Dict>, id: Value): (r: Option<nat>)
    ensures r.Some? ==> r.value < |favs| && IdOf(favs[r.value]) == id
    ensures r.Some? ==> forall j :: 0 <= j < r.value ==> IdOf(favs[j]) != id
    ensures r.None? <==> forall j :: 0 <= j < |favs| ==> IdOf(favs[j]) != id
    decreases |favs|
  {
    if |favs| == 0 then None
    else if IdOf(favs[0]) == id then Some(0)
    else
      var rest := FirstIndex(favs[1..], id);
      assert forall j :: 1 <= j < |favs| ==> favs[j] == favs[1..][j - 1];
      if rest.None? then None else Some(rest.value + 1)
  }

  /** What a remove reports, and the list afterwards. */
  datatype Outcome = Outcome(changed: bool, favorites: seq<Dict>)

  /** Whether the paper names a PDF to copy, and where the copy goes. */
  function PdfCopy(paper: Dict, favDir: string, files: set<string>): Option<string> {
    if "pdf_path" in paper && paper["pdf_path"].Str? && paper["pdf_path"].s in files
    then Some(PathJoin(favDir, Basename(paper["pdf_path"].s)))
    else None
  }

  /** The entry `add_favorite` builds for a paper with the given id. */
  function Entry(paper: Dict, id: Value, now: string, favDir: string, files: set<string>): (r: Dict)
    ensures IdOf(r) == id
  {
    var base := map[
      "id" := id,
      "title" := Get(paper, "title", Str("")),
      "authors" := Get(paper, "authors", Strs([])),
      "added_date" := Str(now),
      "source" := Get(paper, "source", Str("unknown")),
      "tags" := Get(paper, "tags", Strs([])),
      "data_file" := Str(PathJoin(favDir, Render(id) + ".json"))
    ];
    var copy := PdfCopy(paper, favDir, files);
    if copy.Some? then base["pdf_path" := Str(copy.value)] else base
  }

  /** A `pdf_path` that is present but not a string: `os.path.exists` refuses it. */
  predicate PdfPathRaises(paper: Dict) {
    "pdf_path" in paper && !paper["pdf_path"].Str?
  }

  /** A `title` that cannot be sliced: None, a number or a flag (a string or a list slices). */
  predicate TitleRaises(paper: Dict) {
    "title" in paper && !(paper["title"].Str? || paper["title"].Strs?)
  }

  /**
    What `add_favorite` leaves behind: the value it returns (None when it
    raises) and the list saved in the metadata afterwards.
   */
  datatype Added = Added(reported: Option<bool>, favorites: seq<Dict>)

  /**
    `add_favorite`. An id already listed leaves the list as it was and
    reports False. A `pdf_path` that is not a string raises before
    anything is saved. Otherwise one entry is appended, carrying the
    paper's id, the time of the add and the per-paper data file, and the
    list is saved; the call then reports True, or raises when the
    confirmation message slices a title that is not a string or a list.
   */
  function AddFavorite(favs: seq<Dict>, paper: Dict, now: string, favDir: string, files: set<string>): (r: Added)
    ensures FirstIndex(favs, PaperId(paper)).Some? ==> r == Added(Some(false), favs)
    ensures FirstIndex(favs, PaperId(paper)).None? && PdfPathRaises(paper) ==> r == Added(None, favs)
    ensures FirstIndex(favs, PaperId(paper)).None? && !PdfPathRaises(paper) ==>
      && r.reported == (if TitleRaises(paper) then None else Some(true))
      && |r.favorites| == |favs| + 1
      && r.favorites[..|favs|] == favs
      && IdOf(r.favorites[|favs|]) == PaperId(paper)
      && Get(r.favorites[|favs|], "title", Nil) == Get(paper, "title", Str(""))
      && Get(r.favorites[|favs|], "added_date", Nil) == Str(now)
      && Get(r.favorites[|favs|], "data_file", Nil) == Str(PathJoin(favDir, Render(PaperId(paper)) + ".json"))
  {
    var id := PaperId(paper);
    if FirstIndex(favs, id).Some? then Added(Some(false), favs)
    else if PdfPathRaises(paper) then Added(None, favs)
    else
      var entry := Entry(paper, id, now, favDir, files);
      assert (favs + [entry])[..|favs|] == favs;
      Added(if TitleRaises(paper) then None else Some(true), favs + [entry])
  }

  /** A paper whose title is None is saved, and then the call raises instead of reporting True. */
  lemma NullTitleRaisesAfterSave(paper: Dict, now: string, favDir: string, files: set<string>)
    requires "source_id" in paper && paper["source_id"] == Str("x") && "title" in paper && paper["title"] == Nil
    requires !PdfPathRaises(paper)
    ensures AddFavorite([], paper, now, favDir, files).reported.None?
    ensures |AddFavorite([], paper, now, favDir, files).favorites| == 1
  {
  }

  /** Adding keeps the ids pairwise distinct. */
  lemma AddKeepsDistinct(favs: seq<Dict>, paper: Dict, now: string, favDir: string, files: set<string>)
    requires DistinctIds(favs)
    ensures DistinctIds(AddFavorite(favs, paper, now, favDir, files).favorites)
  {
    var fs := AddFavorite(favs, paper, now, favDir, files).favorites;
    if fs != favs {
      forall i, j | 0 <= i < j < |fs| ensures IdOf(fs[i]) != IdOf(fs[j]) {
        assert fs[i] == favs[i];
        if j < |favs| {
          assert fs[j] == favs[j];
        }
      }
    }
  }

  /**
    `remove_favorite`: the first entry with the id is taken out and the
    rest keep their order; an absent id reports False and changes nothing.
   */
  function RemoveFavorite(favs: seq<Dict>, id: Value): (r: Outcome)
    ensures r.changed <==> exists j :: 0 <= j < |favs| && IdOf(favs[j]) == id
    ensures !r.changed ==> r.favorites == favs
    ensures r.changed ==> |r.favorites| == |favs| - 1
    ensures r.changed ==> exists k :: (
      && 0 <= k < |favs| && IdOf(favs[k]) == id
      && (forall j :: 0 <= j < k ==> IdOf(favs[j]) != id)
      && r.favorites == favs[..k] + favs[k + 1..])
  {
    var k := FirstIndex(favs, id);
    if k.None? then Outcome(false, favs)
    else Outcome(true, favs[..k.value] + favs[k.value + 1..])
  }

  /** Removing what was just added gives back the list before the add. */
  lemma {:induction false} RemoveUndoesAdd(favs: seq<Dict>, paper: Dict, now: string, favDir: string, files: set<string>)
    requires FirstIndex(favs, PaperId(paper)).None? && !PdfPathRaises(paper)
    ensures RemoveFavorite(AddFavorite(favs, paper, now, favDir, files).favorites, PaperId(paper)) == Outcome(true, favs)
  {
    var fs := AddFavorite(favs, paper, now, favDir, files).favorites;
    var id := PaperId(paper);
    assert FirstIndex(favs, id).None?;
    FirstIndexOfAppended(favs, fs, id);
    assert fs[..|favs|] + fs[|favs| + 1..] == favs;
  }

  lemma FirstIndexOfAppended(favs: seq<Dict>, fs: seq<Dict>, id: Value)
    requires FirstIndex(favs, id).None?
    requires |fs| == |favs| + 1 && fs[..|favs|] == favs && IdOf(fs[|favs|]) == id
    ensures FirstIndex(fs, id) == Some(|favs|)
  {
    var r := FirstIndex(fs, id);
    assert r.Some? by {
      assert IdOf(fs[|favs|]) == id;
    }
    forall j | 0 <= j < |favs| ensures IdOf(fs[j]) != id {
      assert fs[j] == favs[j];
    }
    var i := r.value;
    assert i >= |favs|;
    assert i < |fs|;
    assert i == |favs|;
  }

  /** With distinct ids, no entry with the removed id is left. */
  lemma RemoveErasesId(favs: seq<Dict>, id: Value)
    requires DistinctIds(favs)
    ensures forall f :: f in RemoveFavorite(favs, id).favorites ==> IdOf(f) != id
  {
    var k := FirstIndex(favs, id);
    if k.Some? {
      var fs := RemoveFavorite(favs, id).favorites;
      forall i | 0 <= i < |fs| ensures IdOf(fs[i]) != id {
        if i < k.value {
          assert fs[i] == favs[i];
        } else {
          assert fs[i] == favs[i + 1];
          assert IdOf(favs[k.value]) != IdOf(favs[i + 1]);
        }
      }
    }
  }

  /** Removing keeps the ids pairwise distinct. */
  lemma RemoveKeepsDistinct(favs: seq<Dict>, id: Value)
    requires DistinctIds(favs)
    ensures DistinctIds(RemoveFavorite(favs, id).favorites)
  {
    var k := FirstIndex(favs, id);
    if k.Some? {
      var fs := RemoveFavorite(favs, id).favorites;
      forall i, j | 0 <= i < j < |fs| ensures IdOf(fs[i]) != IdOf(fs[j]) {
        var i', j' := if i < k.value then i else i + 1, if j < k.value then j else j + 1;
        assert fs[i] == favs[i'] && fs[j] == favs[j'];
      }
    }
  }

  /**
    `list_favorites`: the stored list, or the empty list when the
    metadata has no `favorites` entry.
   */
  function ListFavorites(stored: Option<seq<Dict>>): (r: seq<Dict>)
    ensures stored.None? ==> r == []
    ensures stored.Some? ==> r == stored.value
  {
    stored.GetOr([])
  }

  /** Storing the list an add produced and listing it shows the old entries plus the new one. */
  lemma ListAfterAdd(stored: Option<seq<Dict>>, paper: Dict, now: string, favDir: string, files: set<string>)
    requires FirstIndex(ListFavorites(stored), PaperId(paper)).None? && !PdfPathRaises(paper)
    ensures var after := ListFavorites(Some(AddFavorite(ListFavorites(stored), paper, now, favDir, files).favorites));
      |after| == |ListFavorites(stored)| + 1 && IdOf(after[|after| - 1]) == PaperId(paper)
  {
  }

  // ---------------------------------------------------------------------------
  // Display
  // ---------------------------------------------------------------------------

  const TitleWidth: nat := 50
  const TitleKept: nat := 47

  /**
    The title cell of `display_favorites`: a title longer than 50
    characters is cut to 47 and marked with `...`. None for a title that
    is not a string (Python's `len`, slicing or the table refuse it).
   */
  function DisplayTitle(title: Value): (r: Option<string>)
    ensures r.Some? <==> title.Str?
    ensures r.Some? ==> |r.value| <= TitleWidth
    ensures title.Str? && |title.s| <= TitleWidth ==> r == Some(title.s)
    ensures title.Str? && |title.s| > TitleWidth ==>
      |r.value| == TitleWidth && StartsWith(r.value, title.s[..TitleKept]) && EndsWith(r.value, "...")
  {
    if !title.Str? then None
    else if |title.s| > TitleWidth then
      ConcatEnds(title.s[..TitleKept], "", "...");
      assert title.s[..TitleKept] + "" + "..." == title.s[..TitleKept] + "...";
      Some(title.s[..TitleKept] + "...")
    else Some(title.s)
  }

  /** Two long titles that agree on their first 47 characters display alike. */
  lemma DisplayTitlePrefixOnly(a: string, b: string)
    requires |a| > TitleWidth && |b| > TitleWidth && a[..TitleKept] == b[..TitleKept]
    ensures DisplayTitle(Str(a)) == DisplayTitle(Str(b))
  {
  }
}
